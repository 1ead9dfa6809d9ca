/** The skip list of map/SkipList.java.

    Nodes live in an arena keyed by their (distinct) keys; a node's `rights`
    holds one forward link per level it stands on, so its level is
    `|rights|`.  `None` plays two parts: as a link target it is TRAILER, and as
    the position of a walk it is HEADER, whose links are `header`.  The
    ascending sequence `order` lists the stored keys and is the witness the
    invariant relates the links to: the level-i chain is the subsequence of
    `order` made of the nodes taller than i. */
module SkipList {
  import opened Common
  import opened Entries

  /** The MAX_LEVEL of the no-argument constructor. */
  const DefaultMaxLevel := 16

  /** A tower: the value and the forward links, lowest level first. */
  datatype Node<V> = Node(value: V, rights: seq<Option<int>>)

  datatype SkipMap<V> = SkipMap(
    maxLevel: int,
    header: seq<Option<int>>,
    nodes: map<int, Node<V>>,
    order: seq<int>,
    levelCount: int,
    size: int)

  /** How far a walk along a level may advance: the `<= 0` comparison of
      search and insert, the `< 0` of delete, lowerEntry and subMap, and the
      bare TRAILER test of lastEntry. */
  datatype Bound = AtMost(key: int) | Under(key: int) | Unbounded

  predicate Admits(b: Bound, k: int) {
    match b
    case AtMost(key) => k <= key
    case Under(key) => k < key
    case Unbounded => true
  }

  /** What the entry-returning queries hand back: one of the two sentinels
      (whose key and value are null) or a stored entry. */
  datatype Place<V> = HeaderNode | TrailerNode | Stored(entry: Entry<V>)

  // ---------------------------------------------------------------------
  // Chains

  predicate Ascending(c: seq<int>) {
    forall a, b :: 0 <= a < b < |c| ==> c[a] < c[b]
  }

  function First(c: seq<int>): Option<int> {
    if c == [] then None else Some(c[0])
  }

  function Last(c: seq<int>): Option<int> {
    if c == [] then None else Some(c[|c| - 1])
  }

  /** The link that follows position `t` of chain `c`. */
  function Next(c: seq<int>, t: int): Option<int>
    requires 0 <= t < |c|
  {
    if t + 1 < |c| then Some(c[t + 1]) else None
  }

  /** Node `k` stands on level `i`. */
  predicate OnLevel<V>(n: map<int, Node<V>>, k: int, i: nat) {
    k in n && i < |n[k].rights|
  }

  /** The keys of `c` whose nodes stand on level `i`, in the order of `c`. */
  function Level<V>(c: seq<int>, n: map<int, Node<V>>, i: nat): seq<int>
    decreases |c|
  {
    if c == [] then []
    else (if OnLevel(n, c[0], i) then [c[0]] else []) + Level(c[1..], n, i)
  }

  /** Following the level-`i` links from HEADER visits exactly `c`, then
      reaches TRAILER. */
  predicate Linked<V>(h: seq<Option<int>>, n: map<int, Node<V>>, i: nat, c: seq<int>) {
    i < |h| && h[i] == First(c)
    && forall t :: 0 <= t < |c| ==> OnLevel(n, c[t], i) && n[c[t]].rights[i] == Next(c, t)
  }

  function Chain<V>(s: SkipMap<V>, i: nat): seq<int> {
    Level(s.order, s.nodes, i)
  }

  /** The structure the constructor sets up and every operation keeps:
      HEADER carries MAX_LEVEL + 1 links, levelCount lies in [1, MAX_LEVEL],
      every node stands on 1..levelCount levels, the level-0 chain is the
      ascending list of all stored keys, and every level's links spell that
      level's chain. */
  ghost predicate Valid<V>(s: SkipMap<V>) {
    1 <= s.levelCount <= s.maxLevel && |s.header| == s.maxLevel + 1
    && Ascending(s.order)
    && (forall k :: k in s.nodes <==> k in s.order)
    && s.size == |s.order|
    && (forall k :: k in s.nodes ==> 1 <= |s.nodes[k].rights| <= s.levelCount)
    && forall i: nat :: i <= s.maxLevel ==> Linked(s.header, s.nodes, i, Chain(s, i))
  }

  /** The map the skip list stands for. */
  function Contents<V>(s: SkipMap<V>): map<int, V> {
    map k | k in s.nodes :: s.nodes[k].value
  }

  /** The forward links of a walk position (`None` is HEADER). */
  function Rights<V>(s: SkipMap<V>, x: Option<int>): seq<Option<int>>
    requires x.None? || x.value in s.nodes
  {
    if x.None? then s.header else s.nodes[x.value].rights
  }

  /** Walk position `j` of chain `c`; -1 is HEADER. */
  function At(c: seq<int>, j: int): Option<int>
    requires -1 <= j < |c|
  {
    if j < 0 then None else Some(c[j])
  }

  /** The entry at a walk position or link target, with `sentinel` for `None`. */
  function PlaceOf<V>(s: SkipMap<V>, x: Option<int>, sentinel: Place<V>): Place<V>
    requires x.None? || x.value in s.nodes
  {
    if x.None? then sentinel else Stored(Entry(x.value, s.nodes[x.value].value))
  }

  /** `p` is the entry of `m` with the greatest key `b` admits, or HEADER when
      `b` admits no key of `m`. */
  ghost predicate GreatestPlace<V>(m: map<int, V>, b: Bound, p: Place<V>) {
    match p
    case HeaderNode => forall k :: k in m ==> !Admits(b, k)
    case TrailerNode => false
    case Stored(e) =>
      e.key in m && m[e.key] == e.value && Admits(b, e.key)
      && forall k :: k in m && Admits(b, k) ==> k <= e.key
  }

  /** `p` is the entry of `m` with the least key `b` does not admit, or
      TRAILER when `b` admits every key of `m`. */
  ghost predicate LeastPlace<V>(m: map<int, V>, b: Bound, p: Place<V>) {
    match p
    case HeaderNode => false
    case TrailerNode => forall k :: k in m ==> Admits(b, k)
    case Stored(e) =>
      e.key in m && m[e.key] == e.value && !Admits(b, e.key)
      && forall k :: k in m && !Admits(b, k) ==> e.key <= k
  }

  /** Entries listed in ascending key order, each as `m` holds it. */
  ghost predicate Listing<V>(m: map<int, V>, es: seq<Entry<V>>) {
    (forall a, b :: 0 <= a < b < |es| ==> es[a].key < es[b].key)
    && forall t :: 0 <= t < |es| ==> es[t].key in m && m[es[t].key] == es[t].value
  }

  /** The length of the leading run of `c` that `b` admits. */
  function Prefix(c: seq<int>, b: Bound): (p: nat)
    ensures p <= |c|
    decreases |c|
  {
    if c == [] || !Admits(b, c[0]) then 0 else 1 + Prefix(c[1..], b)
  }

  // ---------------------------------------------------------------------
  // Facts about chains

  /** In an ascending sequence, `b` admits exactly the keys before the
      Prefix mark. */
  lemma {:induction false} PrefixSplit(c: seq<int>, b: Bound)
    requires Ascending(c)
    ensures forall t :: 0 <= t < Prefix(c, b) ==> Admits(b, c[t])
    ensures forall t :: Prefix(c, b) <= t < |c| ==> !Admits(b, c[t])
    decreases |c|
  {
    if c != [] && Admits(b, c[0]) {
      var r := c[1..];
      assert forall t :: 0 <= t < |r| ==> r[t] == c[t + 1];
      PrefixSplit(r, b);
    } else if c != [] {
      forall t | 0 <= t < |c| ensures !Admits(b, c[t]) {
        assert t == 0 || c[0] < c[t];
      }
    }
  }

  /** A key is on a level's chain exactly when it is listed and stands on
      that level. */
  lemma {:induction false} LevelMem<V>(c: seq<int>, n: map<int, Node<V>>, i: nat, k: int)
    ensures k in Level(c, n, i) <==> k in c && OnLevel(n, k, i)
    decreases |c|
  {
    if c != [] {
      LevelMem(c[1..], n, i, k);
      assert c == [c[0]] + c[1..];
    }
  }

  lemma {:induction false} LevelConcat<V>(a: seq<int>, b: seq<int>, n: map<int, Node<V>>, i: nat)
    ensures Level(a + b, n, i) == Level(a, n, i) + Level(b, n, i)
    decreases |a|
  {
    if a == [] {
      assert a + b == b;
    } else {
      assert (a + b)[0] == a[0];
      assert (a + b)[1..] == a[1..] + b;
      LevelConcat(a[1..], b, n, i);
    }
  }

  lemma {:induction false} LevelAscending<V>(c: seq<int>, n: map<int, Node<V>>, i: nat)
    requires Ascending(c)
    ensures Ascending(Level(c, n, i))
    decreases |c|
  {
    if c != [] {
      var rest := Level(c[1..], n, i);
      LevelAscending(c[1..], n, i);
      forall t | 0 <= t < |rest| ensures c[0] < rest[t] {
        LevelMem(c[1..], n, i, rest[t]);
        var j :| 0 <= j < |c[1..]| && c[1..][j] == rest[t];
        assert c[j + 1] == rest[t];
      }
    }
  }

  /** A chain depends only on which listed nodes stand on the level. */
  lemma {:induction false} LevelFrame<V>(c: seq<int>, n1: map<int, Node<V>>, n2: map<int, Node<V>>, i: nat)
    requires forall t :: 0 <= t < |c| ==> (OnLevel(n1, c[t], i) <==> OnLevel(n2, c[t], i))
    ensures Level(c, n1, i) == Level(c, n2, i)
    decreases |c|
  {
    if c != [] {
      assert forall t :: 0 <= t < |c[1..]| ==> c[1..][t] == c[t + 1];
      LevelFrame(c[1..], n1, n2, i);
    }
  }

  /** Level 0 keeps every node that stands on some level. */
  lemma {:induction false} LevelAll<V>(c: seq<int>, n: map<int, Node<V>>)
    requires forall t :: 0 <= t < |c| ==> c[t] in n && 1 <= |n[c[t]].rights|
    ensures Level(c, n, 0) == c
    decreases |c|
  {
    if c != [] {
      assert forall t :: 0 <= t < |c[1..]| ==> c[1..][t] == c[t + 1];
      LevelAll(c[1..], n);
    }
  }

  /** Level i + 1 filters level i. */
  lemma {:induction false} LevelNest<V>(c: seq<int>, n: map<int, Node<V>>, i: nat)
    ensures Level(Level(c, n, i), n, i + 1) == Level(c, n, i + 1)
    decreases |c|
  {
    if c != [] {
      var head := if OnLevel(n, c[0], i) then [c[0]] else [];
      LevelConcat(head, Level(c[1..], n, i), n, i + 1);
      LevelNest(c[1..], n, i);
      if OnLevel(n, c[0], i) {
        assert Level(head, n, i + 1) == (if OnLevel(n, c[0], i + 1) then [c[0]] else []) + Level([], n, i + 1);
      }
    }
  }

  /** The keys listed in `c`. */
  function KeySet(c: seq<int>): (r: set<int>)
    ensures forall k :: k in r <==> k in c
  {
    if c == [] then {} else {c[0]} + KeySet(c[1..])
  }

  /** An ascending list names as many keys as it has entries. */
  lemma {:induction false} AscendingCard(c: seq<int>)
    requires Ascending(c)
    ensures |KeySet(c)| == |c|
    decreases |c|
  {
    if c != [] {
      var rest := c[1..];
      assert Ascending(rest) by {
        forall a, b | 0 <= a < b < |rest| ensures rest[a] < rest[b] {
          assert rest[a] == c[a + 1] && rest[b] == c[b + 1];
        }
      }
      AscendingCard(rest);
      assert c[0] !in rest by {
        forall t | 0 <= t < |rest| ensures rest[t] != c[0] {
          assert rest[t] == c[t + 1];
        }
      }
      assert KeySet(c) == {c[0]} + KeySet(rest);
    }
  }

  /** Links that are unchanged on level `i` still spell the chain. */
  lemma LinkedFrame<V>(h: seq<Option<int>>, n: map<int, Node<V>>, h2: seq<Option<int>>, n2: map<int, Node<V>>, i: nat, c: seq<int>)
    requires Linked(h, n, i, c)
    requires i < |h2| && h2[i] == h[i]
    requires forall t :: 0 <= t < |c| ==> OnLevel(n2, c[t], i) && n2[c[t]].rights[i] == n[c[t]].rights[i]
    ensures Linked(h2, n2, i, c)
  {
  }

  /** Pointing the last node of `a` (or HEADER) at `key`, and `key` at the
      first node of `b`, spells `a + [key] + b` (lines 94-97). */
  lemma LinkedSplice<V>(h: seq<Option<int>>, n: map<int, Node<V>>, h2: seq<Option<int>>, n2: map<int, Node<V>>, i: nat, a: seq<int>, b: seq<int>, key: int)
    requires Linked(h, n, i, a + b) && Ascending(a + b)
    requires OnLevel(n2, key, i) && n2[key].rights[i] == First(b)
    requires forall t :: 0 <= t < |a + b| ==>
      OnLevel(n2, (a + b)[t], i)
      && n2[(a + b)[t]].rights[i] == (if Some((a + b)[t]) == Last(a) then Some(key) else n[(a + b)[t]].rights[i])
    requires i < |h2| && h2[i] == (if a == [] then Some(key) else h[i])
    ensures Linked(h2, n2, i, a + [key] + b)
  {
    var d := a + [key] + b;
    forall t | 0 <= t < |d| ensures OnLevel(n2, d[t], i) && n2[d[t]].rights[i] == Next(d, t) {
      SplicedAt(h, n, n2, i, a, b, key, t);
    }
  }

  /** One position of the spliced chain `a + [key] + b` links to the next. */
  lemma SplicedAt<V>(h: seq<Option<int>>, n: map<int, Node<V>>, n2: map<int, Node<V>>, i: nat, a: seq<int>, b: seq<int>, key: int, t: int)
    requires Linked(h, n, i, a + b) && Ascending(a + b)
    requires OnLevel(n2, key, i) && n2[key].rights[i] == First(b)
    requires forall u :: 0 <= u < |a + b| ==>
      OnLevel(n2, (a + b)[u], i)
      && n2[(a + b)[u]].rights[i] == (if Some((a + b)[u]) == Last(a) then Some(key) else n[(a + b)[u]].rights[i])
    requires 0 <= t < |a + [key] + b|
    ensures var d := a + [key] + b; OnLevel(n2, d[t], i) && n2[d[t]].rights[i] == Next(d, t)
  {
    var d := a + [key] + b;
    if t < |a| {
      SplicedBefore(h, n, n2, i, a, b, key, t);
    } else if t == |a| {
      assert d[t] == key;
      if b != [] {
        assert d[t + 1] == b[0];
      }
    } else {
      SplicedAfter(h, n, n2, i, a, b, key, t);
    }
  }

  /** A node of `a` links as before, except the last, which links to `key`. */
  lemma SplicedBefore<V>(h: seq<Option<int>>, n: map<int, Node<V>>, n2: map<int, Node<V>>, i: nat, a: seq<int>, b: seq<int>, key: int, t: int)
    requires Linked(h, n, i, a + b) && Ascending(a + b)
    requires OnLevel(n2, key, i) && n2[key].rights[i] == First(b)
    requires forall u :: 0 <= u < |a + b| ==>
      OnLevel(n2, (a + b)[u], i)
      && n2[(a + b)[u]].rights[i] == (if Some((a + b)[u]) == Last(a) then Some(key) else n[(a + b)[u]].rights[i])
    requires 0 <= t < |a|
    ensures var d := a + [key] + b; OnLevel(n2, d[t], i) && n2[d[t]].rights[i] == Next(d, t)
  {
    var c := a + b;
    var d := a + [key] + b;
    assert d[t] == c[t] && OnLevel(n2, c[t], i);
    if t + 1 < |a| {
      assert c[t] < c[|a| - 1];
      assert n2[c[t]].rights[i] == n[c[t]].rights[i] == Next(c, t);
      assert d[t + 1] == c[t + 1];
    } else {
      assert d[t + 1] == key;
    }
  }

  /** A node of `b` links as before. */
  lemma SplicedAfter<V>(h: seq<Option<int>>, n: map<int, Node<V>>, n2: map<int, Node<V>>, i: nat, a: seq<int>, b: seq<int>, key: int, t: int)
    requires Linked(h, n, i, a + b) && Ascending(a + b)
    requires OnLevel(n2, key, i) && n2[key].rights[i] == First(b)
    requires forall u :: 0 <= u < |a + b| ==>
      OnLevel(n2, (a + b)[u], i)
      && n2[(a + b)[u]].rights[i] == (if Some((a + b)[u]) == Last(a) then Some(key) else n[(a + b)[u]].rights[i])
    requires |a| < t < |a + [key] + b|
    ensures var d := a + [key] + b; OnLevel(n2, d[t], i) && n2[d[t]].rights[i] == Next(d, t)
  {
    var c := a + b;
    var d := a + [key] + b;
    assert d[t] == c[t - 1] && OnLevel(n2, c[t - 1], i);
    if a != [] {
      assert c[|a| - 1] < c[t - 1];
    }
    assert n2[c[t - 1]].rights[i] == n[c[t - 1]].rights[i] == Next(c, t - 1);
    if t + 1 < |d| {
      assert d[t + 1] == c[t];
    }
  }

  /** Pointing the last node of `a` (or HEADER) past `key` at the first node
      of `b` spells `a + b` (line 121). */
  lemma LinkedCut<V>(h: seq<Option<int>>, n: map<int, Node<V>>, h2: seq<Option<int>>, n2: map<int, Node<V>>, i: nat, a: seq<int>, b: seq<int>, key: int)
    requires Linked(h, n, i, a + [key] + b) && Ascending(a + [key] + b)
    requires forall t :: 0 <= t < |a + b| ==>
      OnLevel(n, (a + b)[t], i) && OnLevel(n2, (a + b)[t], i)
      && n2[(a + b)[t]].rights[i] == (if Some((a + b)[t]) == Last(a) then First(b) else n[(a + b)[t]].rights[i])
    requires i < |h2| && h2[i] == (if a == [] then First(b) else h[i])
    ensures Linked(h2, n2, i, a + b)
  {
    var c := a + b;
    var d := a + [key] + b;
    forall t | 0 <= t < |c| ensures OnLevel(n2, c[t], i) && n2[c[t]].rights[i] == Next(c, t) {
      if t < |a| {
        assert c[t] == d[t];
        if t + 1 < |a| {
          assert d[t] < d[|a| - 1];
          assert c[t + 1] == d[t + 1];
        } else {
          assert n[d[t]].rights[i] == Next(d, t);
        }
      } else {
        assert c[t] == d[t + 1];
        if a != [] {
          assert d[|a| - 1] < d[t + 1];
        }
        if t + 1 < |c| {
          assert c[t + 1] == d[t + 2];
        }
      }
    }
  }

  // ---------------------------------------------------------------------
  // Walking the levels

  /** `u` is where a walk along level `i` under bound `b` stops: the last
      node on level `i` that `b` admits, or HEADER. */
  ghost predicate IsFloor<V>(n: map<int, Node<V>>, i: nat, b: Bound, u: Option<int>) {
    match u
    case None => forall k :: OnLevel(n, k, i) ==> !Admits(b, k)
    case Some(p) =>
      OnLevel(n, p, i) && Admits(b, p)
      && forall k :: OnLevel(n, k, i) && Admits(b, k) ==> k <= p
  }

  /** What the invariant says about one level: its links spell its chain,
      which ascends and holds exactly the nodes standing on the level. */
  lemma ChainFacts<V>(s: SkipMap<V>, i: nat)
    requires Valid(s) && i <= s.maxLevel
    ensures Linked(s.header, s.nodes, i, Chain(s, i)) && Ascending(Chain(s, i))
    ensures forall k :: k in Chain(s, i) <==> OnLevel(s.nodes, k, i)
  {
    LevelAscending(s.order, s.nodes, i);
    forall k ensures k in Chain(s, i) <==> OnLevel(s.nodes, k, i) {
      LevelMem(s.order, s.nodes, i, k);
    }
  }

  /** One step along level `i` from position `j` of its chain reads the next
      position (TRAILER after the last), and every index stays in bounds. */
  lemma StepAt<V>(s: SkipMap<V>, i: nat, c: seq<int>, j: int)
    requires Linked(s.header, s.nodes, i, c) && -1 <= j < |c|
    ensures var u := At(c, j);
      (u.None? || OnLevel(s.nodes, u.value, i)) && i < |Rights(s, u)|
      && Rights(s, u)[i] == (if j + 1 < |c| then Some(c[j + 1]) else None)
  {
  }

  /** Each level lists exactly the stored keys whose towers reach it. */
  lemma ChainMembers<V>(s: SkipMap<V>, i: nat)
    requires Valid(s)
    ensures forall k :: k in Chain(s, i) <==> k in Contents(s) && i < |s.nodes[k].rights|
  {
    forall k ensures k in Chain(s, i) <==> k in Contents(s) && i < |s.nodes[k].rights| {
      LevelMem(s.order, s.nodes, i, k);
    }
  }

  /** Each level is the level below it, thinned to the towers that reach
      higher: an express lane over it. */
  lemma ChainsNest<V>(s: SkipMap<V>, i: nat)
    ensures Chain(s, i + 1) == Level(Chain(s, i), s.nodes, i + 1)
  {
    LevelNest(s.order, s.nodes, i);
  }

  /** Every listed key is stored, on at least one level. */
  lemma OrderStored<V>(s: SkipMap<V>)
    requires Valid(s)
    ensures forall t :: 0 <= t < |s.order| ==> s.order[t] in s.nodes && 1 <= |s.nodes[s.order[t]].rights|
  {
    forall t | 0 <= t < |s.order| ensures s.order[t] in s.nodes && 1 <= |s.nodes[s.order[t]].rights| {
      assert s.order[t] in s.order;
    }
  }

  /** The level-0 chain is the whole key order. */
  lemma Level0<V>(s: SkipMap<V>)
    requires Valid(s)
    ensures Chain(s, 0) == s.order
  {
    OrderStored(s);
    LevelAll(s.order, s.nodes);
  }

  /** The inner `while` of search, insert, delete, lowerEntry, lastEntry and
      subMap (lines 65-67, 90-92, 108-110, 209-211, 243-245, 273-275): from
      `start`, follow level-`i` links while the next key is admitted. The
      ghost `c` is the level's chain. */
  method Walk<V>(s: SkipMap<V>, i: nat, b: Bound, start: Option<int>, ghost c: seq<int>) returns (u: Option<int>)
    requires Linked(s.header, s.nodes, i, c) && Ascending(c)
    requires forall k :: OnLevel(s.nodes, k, i) ==> k in c
    requires start.None? || (OnLevel(s.nodes, start.value, i) && Admits(b, start.value))
    ensures IsFloor(s.nodes, i, b, u)
  {
    ghost var j0 := -1;
    if start.Some? {
      j0 :| 0 <= j0 < |c| && c[j0] == start.value;
    }
    u := WalkFrom(s, i, b, start, c, j0);
    ghost var j :| StopsAt(s.nodes, i, b, c, u, j);
    WalkStops(s.nodes, i, b, c, j);
  }

  /** A level-`i` walk along chain `c` stopped at position `j` (`u` is the
      node there, or the header for -1): that node is admitted and the next
      one on the chain is not. */
  ghost predicate StopsAt<V>(n: map<int, Node<V>>, i: nat, b: Bound, c: seq<int>, u: Option<int>, j: int)
  {
    -1 <= j < |c| && u == At(c, j) && (j >= 0 ==> OnLevel(n, c[j], i) && Admits(b, c[j]))
    && (j + 1 < |c| ==> !Admits(b, c[j + 1]))
  }

  /** The loop of `Walk`, started at position `j0` of the level chain; it
      stops at some position of the chain. */
  method WalkFrom<V>(s: SkipMap<V>, i: nat, b: Bound, start: Option<int>, ghost c: seq<int>, ghost j0: int) returns (u: Option<int>)
    requires Linked(s.header, s.nodes, i, c)
    requires -1 <= j0 < |c| && start == At(c, j0) && (j0 >= 0 ==> Admits(b, c[j0]))
    ensures exists j :: StopsAt(s.nodes, i, b, c, u, j)
  {
    ghost var j := j0;
    u := start;
    StepAt(s, i, c, j);
    while Rights(s, u)[i].Some? && Admits(b, Rights(s, u)[i].value)
      invariant -1 <= j < |c| && u == At(c, j)
      invariant u.None? || OnLevel(s.nodes, u.value, i)
      invariant i < |Rights(s, u)|
      invariant Rights(s, u)[i] == (if j + 1 < |c| then Some(c[j + 1]) else None)
      invariant u.None? || Admits(b, u.value)
      decreases |c| - j
    {
      u := Rights(s, u)[i];
      j := j + 1;
      StepAt(s, i, c, j);
    }
    assert StopsAt(s.nodes, i, b, c, u, j);
  }

  /** A walk along an ascending level chain that stopped at position `j`,
      because the next key is not admitted, stopped at the floor. */
  lemma WalkStops<V>(n: map<int, Node<V>>, i: nat, b: Bound, c: seq<int>, j: int)
    requires Ascending(c) && (forall k :: OnLevel(n, k, i) ==> k in c)
    requires -1 <= j < |c| && (j >= 0 ==> OnLevel(n, c[j], i) && Admits(b, c[j]))
    requires j + 1 < |c| ==> !Admits(b, c[j + 1])
    ensures IsFloor(n, i, b, At(c, j))
  {
    forall k | OnLevel(n, k, i) && Admits(b, k)
      ensures j >= 0 && k <= c[j]
    {
      var t :| 0 <= t < |c| && c[t] == k;
      assert t <= j;
    }
  }

  /** The descent shared by the walking operations: levels `levelCount`
      down to 0, each walk starting where the one above stopped; `update[i]`
      is the stopping node of level `i` (the array of delete, lines 105-113). */
  method Descend<V>(s: SkipMap<V>, b: Bound) returns (update: seq<Option<int>>)
    requires Valid(s)
    ensures |update| == s.levelCount + 1
    ensures forall i :: 0 <= i < |update| ==> IsFloor(s.nodes, i, b, update[i])
  {
    update := seq(s.levelCount + 1, _ => None);
    var node: Option<int> := None;
    var i := s.levelCount;
    while i >= 0
      invariant -1 <= i <= s.levelCount
      invariant |update| == s.levelCount + 1
      invariant forall j :: i < j <= s.levelCount ==> IsFloor(s.nodes, j, b, update[j])
      invariant node.None? || (OnLevel(s.nodes, node.value, i + 1) && Admits(b, node.value))
    {
      ChainFacts(s, i);
      node := Walk(s, i, b, node, Chain(s, i));
      update := update[i := node];
      i := i - 1;
    }
  }

  /** Split an ascending key order where `b` stops admitting, at `q`: on
      every level the walk stops at the last node before `q` on that level. */
  lemma SplitFloor<V>(n: map<int, Node<V>>, order: seq<int>, i: nat, b: Bound, u: Option<int>, q: nat)
    requires Ascending(order) && q <= |order|
    requires forall k :: k in n ==> k in order
    requires forall t :: 0 <= t < q ==> Admits(b, order[t])
    requires forall t :: q <= t < |order| ==> !Admits(b, order[t])
    requires IsFloor(n, i, b, u)
    ensures Level(order, n, i) == Level(order[..q], n, i) + Level(order[q..], n, i)
    ensures u == Last(Level(order[..q], n, i))
  {
    assert order == order[..q] + order[q..];
    LevelConcat(order[..q], order[q..], n, i);
    SplitFloorLast(n, order, i, b, u, q);
  }

  /** The floor is the last key of the admitted run's chain. */
  lemma SplitFloorLast<V>(n: map<int, Node<V>>, order: seq<int>, i: nat, b: Bound, u: Option<int>, q: nat)
    requires Ascending(order) && q <= |order|
    requires forall k :: k in n ==> k in order
    requires forall t :: 0 <= t < q ==> Admits(b, order[t])
    requires forall t :: q <= t < |order| ==> !Admits(b, order[t])
    requires IsFloor(n, i, b, u)
    ensures u == Last(Level(order[..q], n, i))
  {
    var a := order[..q];
    var la := Level(a, n, i);
    if la != [] {
      RunTopAdmitted(n, order, i, b, q);
    }
    if u.Some? {
      FloorInRun(n, order, i, b, u.value, q);
      LevelMem(a, n, i, u.value);
      assert Ascending(a) by {
        assert forall t :: 0 <= t < |a| ==> a[t] == order[t];
      }
      LevelAscending(a, n, i);
      AscendingTop(la, u.value);
    }
  }

  /** The last key of the admitted run's chain stands on the level and is
      admitted. */
  lemma RunTopAdmitted<V>(n: map<int, Node<V>>, order: seq<int>, i: nat, b: Bound, q: nat)
    requires q <= |order|
    requires forall t :: 0 <= t < q ==> Admits(b, order[t])
    requires Level(order[..q], n, i) != []
    ensures var la := Level(order[..q], n, i);
      OnLevel(n, la[|la| - 1], i) && Admits(b, la[|la| - 1])
  {
    var a := order[..q];
    var la := Level(a, n, i);
    LevelMem(a, n, i, la[|la| - 1]);
    var t :| 0 <= t < |a| && a[t] == la[|la| - 1];
    assert a[t] == order[t];
  }

  /** In an ascending sequence every member is at most the last one. */
  lemma AscendingTop(c: seq<int>, k: int)
    requires Ascending(c) && k in c
    ensures k <= c[|c| - 1]
  {
    var t :| 0 <= t < |c| && c[t] == k;
    assert t == |c| - 1 || c[t] < c[|c| - 1];
  }

  /** An admitted stored key lies in the admitted run. */
  lemma FloorInRun<V>(n: map<int, Node<V>>, order: seq<int>, i: nat, b: Bound, k: int, q: nat)
    requires q <= |order|
    requires forall k :: k in n ==> k in order
    requires forall t :: q <= t < |order| ==> !Admits(b, order[t])
    requires OnLevel(n, k, i) && Admits(b, k)
    ensures k in order[..q]
  {
    var x :| 0 <= x < |order| && order[x] == k;
    assert order[..q][x] == order[x];
  }

  /** On level 0 a walk stops at the last key of the admitted run. */
  lemma FloorAt0<V>(n: map<int, Node<V>>, order: seq<int>, b: Bound, u: Option<int>)
    requires Ascending(order) && forall k :: k in n ==> k in order
    requires forall t :: 0 <= t < |order| ==> order[t] in n && 1 <= |n[order[t]].rights|
    requires IsFloor(n, 0, b, u)
    ensures u == At(order, Prefix(order, b) - 1)
  {
    var p := Prefix(order, b);
    var a := order[..p];
    assert u == Last(Level(a, n, 0)) by {
      PrefixSplit(order, b);
      SplitFloor(n, order, 0, b, u, p);
    }
    assert Level(a, n, 0) == a by {
      assert forall t :: 0 <= t < |a| ==> a[t] == order[t];
      LevelAll(a, n);
    }
  }

  /** The level-0 link out of a walk's stopping node is the first key after
      the admitted run of the key order (TRAILER when there is none). */
  lemma SuccessorAt<V>(s: SkipMap<V>, b: Bound, u: Option<int>)
    requires Valid(s) && IsFloor(s.nodes, 0, b, u)
    ensures u.None? || u.value in s.nodes
    ensures 0 < |Rights(s, u)|
    ensures Rights(s, u)[0] ==
      (if Prefix(s.order, b) < |s.order| then Some(s.order[Prefix(s.order, b)]) else None)
  {
    OrderStored(s);
    FloorAt0(s.nodes, s.order, b, u);
    Level0(s);
    ChainFacts(s, 0);
    StepAt(s, 0, s.order, Prefix(s.order, b) - 1);
  }

  /** The level-0 link out of a walk's stopping node is the entry with the
      least key `b` rejects, or TRAILER. */
  lemma Successor<V>(s: SkipMap<V>, b: Bound, u: Option<int>)
    requires Valid(s) && IsFloor(s.nodes, 0, b, u)
    ensures u.None? || u.value in s.nodes
    ensures 0 < |Rights(s, u)|
    ensures Rights(s, u)[0].None? || Rights(s, u)[0].value in s.nodes
    ensures LeastPlace(Contents(s), b, PlaceOf(s, Rights(s, u)[0], TrailerNode))
  {
    SuccessorAt(s, b, u);
    var p := Prefix(s.order, b);
    PrefixSplit(s.order, b);
    forall k | k in s.nodes && !Admits(b, k) ensures p < |s.order| && s.order[p] <= k {
      var t :| 0 <= t < |s.order| && s.order[t] == k;
      assert p <= t;
    }
  }

  /** Where the descent stops on level 0 is the entry with the greatest
      admitted key, or HEADER. */
  lemma FloorPlace<V>(s: SkipMap<V>, b: Bound, u: Option<int>)
    requires Valid(s) && IsFloor(s.nodes, 0, b, u)
    ensures u.None? || u.value in s.nodes
    ensures GreatestPlace(Contents(s), b, PlaceOf(s, u, HeaderNode))
  {
    forall k | k in s.nodes ensures OnLevel(s.nodes, k, 0) {
    }
  }

  // ---------------------------------------------------------------------
  // Construction and queries

  /** The skip list `new SkipList(maxLevel)` builds: HEADER's MAX_LEVEL + 1
      links all point at TRAILER and levelCount is 1. */
  function Empty<V>(maxLevel: int): SkipMap<V>
    requires 1 <= maxLevel
  {
    SkipMap(maxLevel, seq(maxLevel + 1, _ => None), map[], [], 1, 0)
  }

  /** `new SkipList(maxLevel)` (lines 23-32): the map is empty. */
  method New<V>(maxLevel: int) returns (s: SkipMap<V>)
    requires 1 <= maxLevel
    ensures Valid(s) && Contents(s) == map[] && s.maxLevel == maxLevel && s.levelCount == 1
  {
    s := Empty(maxLevel);
  }

  /** `new SkipList()` (lines 19-21). */
  method Default<V>() returns (s: SkipMap<V>)
    ensures Valid(s) && Contents(s) == map[] && s.maxLevel == 16
  {
    s := New(DefaultMaxLevel);
  }

  /** The size counter counts the stored keys. */
  lemma SizeCounts<V>(s: SkipMap<V>)
    requires Valid(s)
    ensures s.size == |Contents(s)|
  {
    AscendingCard(s.order);
    assert Contents(s).Keys == s.nodes.Keys;
    assert s.nodes.Keys == KeySet(s.order) by {
      forall k ensures k in s.nodes <==> k in KeySet(s.order) {
        assert k in s.nodes <==> k in s.order;
      }
    }
  }

  /** `size()` (lines 143-146). */
  function Size<V>(s: SkipMap<V>): (n: int)
    requires Valid(s)
    ensures n == |Contents(s)|
  {
    SizeCounts(s);
    s.size
  }

  /** HEADER's level-0 link is the least key, or TRAILER when empty. */
  lemma HeadLink<V>(s: SkipMap<V>)
    requires Valid(s)
    ensures 0 < |s.header| && (s.header[0].None? <==> Contents(s) == map[])
    ensures s.header[0].Some? ==>
      s.header[0].value in s.nodes && forall k :: k in s.nodes ==> s.header[0].value <= k
  {
    assert s.header[0] == First(s.order) by {
      Level0(s);
      ChainFacts(s, 0);
      StepAt(s, 0, s.order, -1);
    }
    assert s.nodes.Keys == Contents(s).Keys;
    forall k | k in s.nodes ensures s.order != [] && s.order[0] <= k {
      var t :| 0 <= t < |s.order| && s.order[t] == k;
      assert t == 0 || s.order[0] < s.order[t];
    }
    if s.order != [] {
      assert s.order[0] in s.order;
    }
  }

  /** `firstEntry()` (lines 196-203): null when empty, else the least entry. */
  function FirstEntry<V>(s: SkipMap<V>): (r: Option<Entry<V>>)
    requires Valid(s)
    ensures r.None? <==> Contents(s) == map[]
    ensures r.Some? ==>
      r.value.key in Contents(s) && Contents(s)[r.value.key] == r.value.value
      && forall k :: k in Contents(s) ==> r.value.key <= k
  {
    HeadLink(s);
    if s.header[0].None? then None
    else Some(Entry(s.header[0].value, s.nodes[s.header[0].value].value))
  }

  /** `search(key)` (lines 59-70): the entry with the greatest key not above
      `key`, or HEADER. */
  method Search<V>(s: SkipMap<V>, key: int) returns (u: Option<int>)
    requires Valid(s)
    ensures u.None? || u.value in s.nodes
    ensures GreatestPlace(Contents(s), AtMost(key), PlaceOf(s, u, HeaderNode))
    ensures IsFloor(s.nodes, 0, AtMost(key), u)
  {
    var update := Descend(s, AtMost(key));
    u := update[0];
    FloorPlace(s, AtMost(key), u);
  }

  /** `get(key)` (lines 148-155). */
  method Get<V>(s: SkipMap<V>, key: int) returns (r: Option<V>)
    requires Valid(s)
    ensures r == Lookup(Contents(s), key)
  {
    var u := Search(s, key);
    if u != Some(key) {
      return None;
    }
    return Some(s.nodes[key].value);
  }

  /** `containsKey(key)` (lines 174-181). */
  method ContainsKey<V>(s: SkipMap<V>, key: int) returns (r: bool)
    requires Valid(s)
    ensures r <==> key in Contents(s)
  {
    var u := Search(s, key);
    r := u == Some(key);
  }

  /** `floorEntry(key)` (lines 228-234): the greatest key not above `key`, or
      HEADER. */
  method FloorEntry<V>(s: SkipMap<V>, key: int) returns (p: Place<V>)
    requires Valid(s)
    ensures GreatestPlace(Contents(s), AtMost(key), p)
  {
    var u := Search(s, key);
    p := PlaceOf(s, u, HeaderNode);
  }

  /** `lowerEntry(key)` (lines 236-248): the greatest key below `key`, or
      HEADER. */
  method LowerEntry<V>(s: SkipMap<V>, key: int) returns (p: Place<V>)
    requires Valid(s)
    ensures GreatestPlace(Contents(s), Under(key), p)
  {
    var update := Descend(s, Under(key));
    FloorPlace(s, Under(key), update[0]);
    p := PlaceOf(s, update[0], HeaderNode);
  }

  /** `lastEntry()` (lines 205-214): the greatest entry, or HEADER (not null)
      when the map is empty. */
  method LastEntry<V>(s: SkipMap<V>) returns (p: Place<V>)
    requires Valid(s)
    ensures p == HeaderNode <==> Contents(s) == map[]
    ensures GreatestPlace(Contents(s), Unbounded, p)
  {
    var update := Descend(s, Unbounded);
    FloorPlace(s, Unbounded, update[0]);
    p := PlaceOf(s, update[0], HeaderNode);
    if p == HeaderNode {
      assert Contents(s) == map[] by {
        forall k ensures k !in Contents(s) {
        }
      }
    }
  }

  /** `higherEntry(key)` (lines 250-257): the least key above `key`, or
      TRAILER. */
  method HigherEntry<V>(s: SkipMap<V>, key: int) returns (p: Place<V>)
    requires Valid(s)
    ensures LeastPlace(Contents(s), AtMost(key), p)
  {
    var u := Search(s, key);
    Successor(s, AtMost(key), u);
    p := PlaceOf(s, Rights(s, u)[0], TrailerNode);
  }

  /** `ceilingEntry(key)` as written (lines 216-226): the least key not below
      `key`, or TRAILER; when no key is at most `key`, search returns HEADER
      and line 222 reads its null key. */
  method CeilingEntry<V>(s: SkipMap<V>, key: int) returns (r: Outcome<Place<V>>)
    requires Valid(s)
    ensures r.Throws? <==> forall k :: k in Contents(s) ==> key < k
    ensures r.Throws? ==> r.error == NullPointer
    ensures r.Ok? ==> LeastPlace(Contents(s), Under(key), r.value)
  {
    var u := Search(s, key);
    if u.None? {
      return Throws(NullPointer);
    }
    if u.value < key {
      Successor(s, AtMost(key), u);
      return Ok(PlaceOf(s, Rights(s, u)[0], TrailerNode));
    }
    return Ok(PlaceOf(s, u, TrailerNode));
  }

  /** `ceilingEntry(key)` with HEADER treated as lying below every key, so
      that it also steps to its successor. */
  method CeilingFixed<V>(s: SkipMap<V>, key: int) returns (p: Place<V>)
    requires Valid(s)
    ensures LeastPlace(Contents(s), Under(key), p)
  {
    var u := Search(s, key);
    if u.None? || u.value < key {
      Successor(s, AtMost(key), u);
      p := PlaceOf(s, Rights(s, u)[0], TrailerNode);
    } else {
      p := PlaceOf(s, u, TrailerNode);
    }
  }

  /** A ceiling query on an empty skip list throws. */
  method CeilingOfEmpty() returns (r: Outcome<Place<int>>)
    ensures r == Throws(NullPointer)
  {
    r := CeilingEntry(Empty<int>(DefaultMaxLevel), 0);
  }

  // ---------------------------------------------------------------------
  // Insertion

  /** The loop of getRandomLevel (lines 72-78) from `level` on, with the coin
      flips as an input: `heads` true flips come before the first false one. */
  function Coins(level: int, heads: nat, maxLevel: int): (r: int)
    ensures r == if maxLevel <= level then level
                 else if level + heads <= maxLevel then level + heads
                 else maxLevel
    decreases heads
  {
    if heads > 0 && level < maxLevel then Coins(level + 1, heads - 1, maxLevel) else level
  }

  /** `getRandomLevel()`: one more level per leading head, capped at
      MAX_LEVEL. */
  function RandomLevel(heads: nat, maxLevel: int): (level: int)
    ensures 1 <= level <= 1 + heads
    ensures 1 <= maxLevel ==> level <= maxLevel
    ensures level < 1 + heads ==> level == 1 || level == maxLevel
  {
    Coins(1, heads, maxLevel)
  }

  /** Slot `j < |links|` of `r` takes `links[j]` when `x` is where the walk
      stopped on level `j`: the link writes of lines 96 and 121. */
  function Redirect(r: seq<Option<int>>, x: Option<int>, update: seq<Option<int>>, links: seq<Option<int>>): (r2: seq<Option<int>>)
    requires |links| <= |update|
    ensures |r2| == |r|
  {
    seq(|r|, j requires 0 <= j < |r| => if j < |links| && update[j] == x then links[j] else r[j])
  }

  /** Redirect every stopping node's link (HEADER's included). */
  function Relink<V>(s: SkipMap<V>, update: seq<Option<int>>, links: seq<Option<int>>): SkipMap<V>
    requires |links| <= |update|
  {
    s.(header := Redirect(s.header, None, update, links),
       nodes := map k | k in s.nodes :: Node(s.nodes[k].value, Redirect(s.nodes[k].rights, Some(k), update, links)))
  }

  /** The link a walk stopped at `u` reads on level `i`. */
  function LinkOut<V>(s: SkipMap<V>, u: Option<int>, i: nat): Option<int>
    requires u.None? || OnLevel(s.nodes, u.value, i)
    requires u.Some? || i < |s.header|
  {
    Rights(s, u)[i]
  }

  /** The order facts of the invariant, without the links. */
  ghost predicate Listed<V>(s: SkipMap<V>) {
    Ascending(s.order)
    && (forall k :: k in s.nodes ==> k in s.order)
    && forall t :: 0 <= t < |s.order| ==> s.order[t] in s.nodes && 1 <= |s.nodes[s.order[t]].rights|
  }

  lemma ValidListed<V>(s: SkipMap<V>)
    requires Valid(s)
    ensures Listed(s)
  {
    OrderStored(s);
  }

  /** What the descent for an absent `key` leaves for the linking: on every
      level below `level` the stopping node stands on that level. */
  ghost predicate ReadyToLink<V>(s: SkipMap<V>, update: seq<Option<int>>, key: int, level: nat) {
    Listed(s) && key !in s.nodes && 1 <= level <= |update| && level <= |s.header|
    && forall j :: 0 <= j < level ==> IsFloor(s.nodes, j, AtMost(key), update[j])
  }

  /** The linking of lines 87-100: on each level below `level` the stopping
      node now points at the new tower, which points where it used to. */
  function LinkIn<V>(s: SkipMap<V>, update: seq<Option<int>>, key: int, v: V, level: nat): SkipMap<V>
    requires ReadyToLink(s, update, key, level)
  {
    var r := Relink(s, update, seq(level, _ => Some(key)));
    var tower := Node(v, seq(level, i requires 0 <= i < level => LinkOut(s, update[i], i)));
    var q := Prefix(s.order, AtMost(key));
    r.(nodes := r.nodes[key := tower], order := s.order[..q] + [key] + s.order[q..], size := s.size + 1)
  }

  /** A key between two ascending runs can stand between them. */
  lemma AscendingInsert(a: seq<int>, rest: seq<int>, key: int)
    requires Ascending(a + rest)
    requires forall t :: 0 <= t < |a| ==> a[t] < key
    requires forall t :: 0 <= t < |rest| ==> key < rest[t]
    ensures Ascending(a + [key] + rest)
  {
    var c := a + rest;
    var d := a + [key] + rest;
    forall x, y | 0 <= x < y < |d| ensures d[x] < d[y] {
      if y < |a| {
        assert d[x] == c[x] && d[y] == c[y];
      } else if x > |a| {
        assert d[x] == c[x - 1] && d[y] == c[y - 1];
      } else if x < |a| && y > |a| {
        assert d[x] == a[x] && d[y] == rest[y - |a| - 1];
      } else if x == |a| {
        assert d[y] == rest[y - |a| - 1];
      } else {
        assert d[x] == a[x];
      }
    }
  }

  /** A key missing from `c` lies strictly between the two parts of `c`
      that AtMost(key) separates. */
  lemma StrictSplit(c: seq<int>, key: int, q: nat)
    requires key !in c && q <= |c|
    requires forall t :: 0 <= t < q ==> Admits(AtMost(key), c[t])
    requires forall t :: q <= t < |c| ==> !Admits(AtMost(key), c[t])
    ensures forall t :: 0 <= t < q ==> c[t] < key
    ensures forall t :: q <= t < |c| ==> key < c[t]
  {
    forall t | 0 <= t < q ensures c[t] < key {
      assert c[t] in c;
    }
  }

  /** The keys below `key` and those above it split the key order. */
  lemma InsertSplit(order: seq<int>, key: int)
    requires Ascending(order) && key !in order
    ensures var q := Prefix(order, AtMost(key));
      order == order[..q] + order[q..]
      && (forall t :: 0 <= t < q ==> order[t] < key)
      && (forall t :: q <= t < |order| ==> key < order[t])
      && Ascending(order[..q] + [key] + order[q..])
  {
    var q := Prefix(order, AtMost(key));
    assert order == order[..q] + order[q..];
    PrefixSplit(order, AtMost(key));
    StrictSplit(order, key, q);
    AscendingInsertAt(order, key, q);
  }

  /** A key above the first `q` keys and below the rest, put between them,
      keeps the order ascending. */
  lemma AscendingInsertAt(order: seq<int>, key: int, q: nat)
    requires Ascending(order) && q <= |order|
    requires forall t :: 0 <= t < q ==> order[t] < key
    requires forall t :: q <= t < |order| ==> key < order[t]
    ensures Ascending(order[..q] + [key] + order[q..])
  {
    var a := order[..q];
    var rest := order[q..];
    assert order == a + rest;
    assert forall t :: 0 <= t < |a| ==> a[t] == order[t];
    assert forall t :: 0 <= t < |rest| ==> rest[t] == order[q + t];
    AscendingInsert(a, rest, key);
  }

  /** The tower and the nodes of the old list, seen through LinkIn. */
  lemma LinkInNodes<V>(s: SkipMap<V>, update: seq<Option<int>>, key: int, v: V, level: nat)
    requires ReadyToLink(s, update, key, level)
    ensures var t := LinkIn(s, update, key, v, level);
      t.nodes.Keys == s.nodes.Keys + {key}
      && t.header == Redirect(s.header, None, update, seq(level, _ => Some(key)))
      && t.nodes[key].value == v && |t.nodes[key].rights| == level
      && (forall i :: 0 <= i < level ==> t.nodes[key].rights[i] == LinkOut(s, update[i], i))
      && forall k :: k in s.nodes ==>
           t.nodes[k].value == s.nodes[k].value
           && t.nodes[k].rights == Redirect(s.nodes[k].rights, Some(k), update, seq(level, _ => Some(key)))
  {
  }

  /** On level `i` below `level` the descent stopped at the last node below
      `key`. */
  lemma InsertStop<V>(s: SkipMap<V>, update: seq<Option<int>>, key: int, level: nat, i: nat)
    requires ReadyToLink(s, update, key, level)
    ensures var q := Prefix(s.order, AtMost(key));
      var la := Level(s.order[..q], s.nodes, i);
      Chain(s, i) == la + Level(s.order[q..], s.nodes, i)
      && (i < level ==> update[i] == Last(la))
  {
    var q := Prefix(s.order, AtMost(key));
    InsertSplit(s.order, key);
    if i < level {
      SplitFloor(s.nodes, s.order, i, AtMost(key), update[i], q);
    } else {
      LevelConcat(s.order[..q], s.order[q..], s.nodes, i);
    }
  }

  /** Level `i` of the list LinkIn builds: the old chain with `key` spliced
      in when the tower reaches level `i`. */
  lemma InsertChain<V>(s: SkipMap<V>, update: seq<Option<int>>, key: int, v: V, level: nat, i: nat)
    requires ReadyToLink(s, update, key, level)
    ensures var q := Prefix(s.order, AtMost(key));
      var t := LinkIn(s, update, key, v, level);
      Chain(t, i) == Level(s.order[..q], s.nodes, i) + (if i < level then [key] else [])
                     + Level(s.order[q..], s.nodes, i)
  {
    var q := Prefix(s.order, AtMost(key));
    var t := LinkIn(s, update, key, v, level);
    var n2 := t.nodes;
    var a := s.order[..q];
    var rest := s.order[q..];
    assert t.order == a + [key] + rest;
    LevelConcat(a + [key], rest, n2, i);
    LevelConcat(a, [key], n2, i);
    LinkInFrame(s, update, key, v, level, i, a);
    LinkInFrame(s, update, key, v, level, i, rest);
    LinkInTop(s, update, key, v, level, i);
  }

  /** LinkIn leaves level `i` of every run of old keys as it was. */
  lemma LinkInFrame<V>(s: SkipMap<V>, update: seq<Option<int>>, key: int, v: V, level: nat, i: nat, c: seq<int>)
    requires ReadyToLink(s, update, key, level) && forall k :: k in c ==> k in s.order
    ensures Level(c, LinkIn(s, update, key, v, level).nodes, i) == Level(c, s.nodes, i)
  {
    LinkInNodes(s, update, key, v, level);
    forall t | 0 <= t < |c|
      ensures OnLevel(s.nodes, c[t], i) <==> OnLevel(LinkIn(s, update, key, v, level).nodes, c[t], i)
    {
      assert c[t] in c;
    }
    LevelFrame(c, s.nodes, LinkIn(s, update, key, v, level).nodes, i);
  }

  /** The new tower stands on level `i` exactly when `i` is below its height. */
  lemma LinkInTop<V>(s: SkipMap<V>, update: seq<Option<int>>, key: int, v: V, level: nat, i: nat)
    requires ReadyToLink(s, update, key, level)
    ensures Level([key], LinkIn(s, update, key, v, level).nodes, i) == (if i < level then [key] else [])
  {
    LinkInNodes(s, update, key, v, level);
    assert [key][1..] == [];
  }

  /** A node of the old list keeps its link on level `i` unless the walk
      stopped at it on a level the new tower reaches. */
  lemma LinkInKept<V>(s: SkipMap<V>, update: seq<Option<int>>, key: int, v: V, level: nat, i: nat, k: int)
    requires ReadyToLink(s, update, key, level) && OnLevel(s.nodes, k, i)
    ensures var t := LinkIn(s, update, key, v, level);
      OnLevel(t.nodes, k, i)
      && t.nodes[k].rights[i] == (if i < level && update[i] == Some(k) then Some(key) else s.nodes[k].rights[i])
  {
    LinkInNodes(s, update, key, v, level);
  }

  /** Above the new tower LinkIn writes no link: level `i` is unchanged. */
  lemma LinkInAbove<V>(s: SkipMap<V>, update: seq<Option<int>>, key: int, v: V, level: nat, i: nat)
    requires ReadyToLink(s, update, key, level) && level <= i
    requires Linked(s.header, s.nodes, i, Chain(s, i))
    ensures var t := LinkIn(s, update, key, v, level); Linked(t.header, t.nodes, i, Chain(t, i))
  {
    var t := LinkIn(s, update, key, v, level);
    var c := Chain(s, i);
    assert Chain(t, i) == c by {
      var q := Prefix(s.order, AtMost(key));
      InsertStop(s, update, key, level, i);
      InsertChain(s, update, key, v, level, i);
      assert Level(s.order[..q], s.nodes, i) + [] == Level(s.order[..q], s.nodes, i);
    }
    assert i < |t.header| && t.header[i] == s.header[i] by {
      LinkInNodes(s, update, key, v, level);
    }
    forall x | 0 <= x < |c|
      ensures OnLevel(t.nodes, c[x], i) && t.nodes[c[x]].rights[i] == s.nodes[c[x]].rights[i]
    {
      LinkInKept(s, update, key, v, level, i, c[x]);
    }
    LinkedFrame(s.header, s.nodes, t.header, t.nodes, i, c);
  }

  /** Within the new tower LinkIn splices `key` in after the walk's stop. */
  lemma LinkInBelow<V>(s: SkipMap<V>, update: seq<Option<int>>, key: int, v: V, level: nat, i: nat)
    requires ReadyToLink(s, update, key, level) && i < level
    requires Linked(s.header, s.nodes, i, Chain(s, i)) && Ascending(Chain(s, i))
    ensures var t := LinkIn(s, update, key, v, level); Linked(t.header, t.nodes, i, Chain(t, i))
  {
    var t := LinkIn(s, update, key, v, level);
    var q := Prefix(s.order, AtMost(key));
    var la := Level(s.order[..q], s.nodes, i);
    var lr := Level(s.order[q..], s.nodes, i);
    InsertStop(s, update, key, level, i);
    InsertChain(s, update, key, v, level, i);
    LinkInTower(s, update, key, v, level, i, la, lr);
    LinkInRedirect(s, update, key, v, level, i, la, lr);
    LinkedSplice(s.header, s.nodes, t.header, t.nodes, i, la, lr, key);
  }

  /** Within the new tower, its link on level `i` points where the walk's
      stop pointed, and HEADER points at it when the walk never left HEADER. */
  lemma LinkInTower<V>(s: SkipMap<V>, update: seq<Option<int>>, key: int, v: V, level: nat, i: nat, la: seq<int>, lr: seq<int>)
    requires ReadyToLink(s, update, key, level) && i < level
    requires Linked(s.header, s.nodes, i, la + lr) && update[i] == Last(la)
    ensures var t := LinkIn(s, update, key, v, level);
      OnLevel(t.nodes, key, i) && t.nodes[key].rights[i] == First(lr)
      && i < |t.header| && t.header[i] == (if la == [] then Some(key) else s.header[i])
  {
    LinkInNodes(s, update, key, v, level);
    StepAt(s, i, la + lr, |la| - 1);
  }

  /** Within the new tower the walk's stop on level `i` now points at `key`;
      every other node of the level keeps its link. */
  lemma LinkInRedirect<V>(s: SkipMap<V>, update: seq<Option<int>>, key: int, v: V, level: nat, i: nat, la: seq<int>, lr: seq<int>)
    requires ReadyToLink(s, update, key, level) && i < level
    requires Linked(s.header, s.nodes, i, la + lr) && update[i] == Last(la)
    ensures var t := LinkIn(s, update, key, v, level); var c := la + lr;
      forall x :: 0 <= x < |c| ==>
        OnLevel(t.nodes, c[x], i)
        && t.nodes[c[x]].rights[i] == (if Some(c[x]) == Last(la) then Some(key) else s.nodes[c[x]].rights[i])
  {
    var c := la + lr;
    forall x | 0 <= x < |c|
      ensures OnLevel(LinkIn(s, update, key, v, level).nodes, c[x], i)
      && LinkIn(s, update, key, v, level).nodes[c[x]].rights[i]
         == (if Some(c[x]) == Last(la) then Some(key) else s.nodes[c[x]].rights[i])
    {
      LinkInKept(s, update, key, v, level, i, c[x]);
    }
  }

  /** LinkIn keeps level `i` linked. */
  lemma LinkInLevel<V>(s: SkipMap<V>, update: seq<Option<int>>, key: int, v: V, level: nat, i: nat)
    requires ReadyToLink(s, update, key, level)
    requires Linked(s.header, s.nodes, i, Chain(s, i)) && Ascending(Chain(s, i))
    ensures var t := LinkIn(s, update, key, v, level); Linked(t.header, t.nodes, i, Chain(t, i))
  {
    if i < level {
      LinkInBelow(s, update, key, v, level, i);
    } else {
      LinkInAbove(s, update, key, v, level, i);
    }
  }

  /** LinkIn keeps the invariant and adds `key -> v` to the map. */
  lemma LinkInValid<V>(s: SkipMap<V>, update: seq<Option<int>>, key: int, v: V, level: nat)
    requires Valid(s) && ReadyToLink(s, update, key, level) && level <= s.levelCount
    ensures Valid(LinkIn(s, update, key, v, level))
    ensures Contents(LinkIn(s, update, key, v, level)) == Contents(s)[key := v]
  {
    LinkInShape(s, update, key, v, level);
    LinkInLevels(s, update, key, v, level);
    LinkInContents(s, update, key, v, level);
  }

  /** LinkIn keeps the key listing ascending and in step with the nodes. */
  lemma LinkInShape<V>(s: SkipMap<V>, update: seq<Option<int>>, key: int, v: V, level: nat)
    requires Valid(s) && ReadyToLink(s, update, key, level) && level <= s.levelCount
    ensures var t := LinkIn(s, update, key, v, level);
      1 <= t.levelCount <= t.maxLevel && |t.header| == t.maxLevel + 1
      && Ascending(t.order) && (forall k :: k in t.nodes <==> k in t.order)
      && t.size == |t.order|
      && forall k :: k in t.nodes ==> 1 <= |t.nodes[k].rights| <= t.levelCount
  {
    LinkInOrder(s, update, key, v, level);
    LinkInTowers(s, update, key, v, level);
  }

  /** LinkIn lists `key` in its ascending place among the stored keys. */
  lemma LinkInOrder<V>(s: SkipMap<V>, update: seq<Option<int>>, key: int, v: V, level: nat)
    requires Valid(s) && ReadyToLink(s, update, key, level)
    ensures var t := LinkIn(s, update, key, v, level);
      Ascending(t.order) && (forall k :: k in t.nodes <==> k in t.order) && t.size == |t.order|
  {
    var t := LinkIn(s, update, key, v, level);
    var q := Prefix(s.order, AtMost(key));
    InsertSplit(s.order, key);
    assert t.nodes.Keys == s.nodes.Keys + {key} by {
      LinkInNodes(s, update, key, v, level);
    }
    assert forall k :: k in t.order <==> k in s.order || k == key by {
      assert s.order == s.order[..q] + s.order[q..];
    }
  }

  /** LinkIn keeps HEADER's length and every tower within the levels in use. */
  lemma LinkInTowers<V>(s: SkipMap<V>, update: seq<Option<int>>, key: int, v: V, level: nat)
    requires Valid(s) && ReadyToLink(s, update, key, level) && level <= s.levelCount
    ensures var t := LinkIn(s, update, key, v, level);
      1 <= t.levelCount <= t.maxLevel && |t.header| == t.maxLevel + 1
      && forall k :: k in t.nodes ==> 1 <= |t.nodes[k].rights| <= t.levelCount
  {
    LinkInNodes(s, update, key, v, level);
  }

  /** LinkIn keeps every level linked. */
  lemma LinkInLevels<V>(s: SkipMap<V>, update: seq<Option<int>>, key: int, v: V, level: nat)
    requires Valid(s) && ReadyToLink(s, update, key, level)
    ensures var t := LinkIn(s, update, key, v, level);
      forall i: nat :: i <= t.maxLevel ==> Linked(t.header, t.nodes, i, Chain(t, i))
  {
    var t := LinkIn(s, update, key, v, level);
    forall i: nat | i <= t.maxLevel ensures Linked(t.header, t.nodes, i, Chain(t, i)) {
      ChainFacts(s, i);
      LinkInLevel(s, update, key, v, level, i);
    }
  }

  /** LinkIn adds exactly `key -> v` to the map. */
  lemma LinkInContents<V>(s: SkipMap<V>, update: seq<Option<int>>, key: int, v: V, level: nat)
    requires ReadyToLink(s, update, key, level)
    ensures Contents(LinkIn(s, update, key, v, level)) == Contents(s)[key := v]
  {
    LinkInNodes(s, update, key, v, level);
  }

  /** One more level in use keeps the invariant while it stays within
      MAX_LEVEL (lines 83-86). */
  lemma RaiseValid<V>(s: SkipMap<V>)
    requires Valid(s) && s.levelCount < s.maxLevel
    ensures Valid(s.(levelCount := s.levelCount + 1))
    ensures Contents(s.(levelCount := s.levelCount + 1)) == Contents(s)
  {
    var s1 := s.(levelCount := s.levelCount + 1);
    forall i: nat | i <= s1.maxLevel ensures Linked(s1.header, s1.nodes, i, Chain(s1, i)) {
      assert Chain(s1, i) == Chain(s, i);
    }
  }

  /** `insert(key, value)` (lines 80-101) for a key the list lacks. The coin
      flips of getRandomLevel arrive as `heads`; the new tower is that tall,
      except that the levels in use grow by at most one. */
  method Insert<V>(s: SkipMap<V>, key: int, v: V, heads: nat) returns (t: SkipMap<V>)
    requires Valid(s) && key !in Contents(s)
    ensures Valid(t) && t.maxLevel == s.maxLevel
    ensures Contents(t) == Contents(s)[key := v]
    ensures t.size == s.size + 1
    ensures t.levelCount == (if RandomLevel(heads, s.maxLevel) > s.levelCount then s.levelCount + 1 else s.levelCount)
    ensures key in t.nodes && |t.nodes[key].rights| == (if RandomLevel(heads, s.maxLevel) > s.levelCount then t.levelCount else RandomLevel(heads, s.maxLevel))
  {
    var level := RandomLevel(heads, s.maxLevel);
    var s1 := s;
    if level > s.levelCount {
      RaiseValid(s);
      s1 := s.(levelCount := s.levelCount + 1);
      level := s1.levelCount;
    }
    var update := Descend(s1, AtMost(key));
    ValidListed(s1);
    t := LinkIn(s1, update, key, v, level);
    LinkInValid(s1, update, key, v, level);
    LinkInNodes(s1, update, key, v, level);
  }

  /** Overwriting the value of a stored key leaves every link in place
      (line 162). */
  lemma ReplaceValid<V>(s: SkipMap<V>, key: int, v: V)
    requires Valid(s) && key in s.nodes
    ensures var t := s.(nodes := s.nodes[key := Node(v, s.nodes[key].rights)]);
      Valid(t) && Contents(t) == Contents(s)[key := v]
  {
    var t := s.(nodes := s.nodes[key := Node(v, s.nodes[key].rights)]);
    forall i: nat | i <= t.maxLevel ensures Linked(t.header, t.nodes, i, Chain(t, i)) {
      LevelFrame(s.order, s.nodes, t.nodes, i);
      assert Chain(t, i) == Chain(s, i);
    }
  }

  /** `put(key, value)` (lines 157-167): overwrite and return the old value
      on a hit, insert and return the new value on a miss. */
  method Put<V>(s: SkipMap<V>, key: int, v: V, heads: nat) returns (t: SkipMap<V>, r: V)
    requires Valid(s)
    ensures Valid(t) && t.maxLevel == s.maxLevel
    ensures Contents(t) == Contents(s)[key := v]
    ensures key in Contents(s) ==> r == Contents(s)[key] && t.size == s.size
    ensures key !in Contents(s) ==> r == v && t.size == s.size + 1
  {
    var u := Search(s, key);
    if u == Some(key) {
      r := s.nodes[key].value;
      ReplaceValid(s, key, v);
      t := s.(nodes := s.nodes[key := Node(v, s.nodes[key].rights)]);
    } else {
      t := Insert(s, key, v, heads);
      r := v;
    }
  }

  // ---------------------------------------------------------------------
  // Deletion

  /** What the descent for a stored `key` leaves for the unlinking: on every
      level of its tower the walk stopped just before it. */
  ghost predicate ReadyToUnlink<V>(s: SkipMap<V>, update: seq<Option<int>>, key: int) {
    Listed(s) && key in s.nodes && |s.nodes[key].rights| <= |update|
    && forall j :: 0 <= j < |s.nodes[key].rights| ==> IsFloor(s.nodes, j, Under(key), update[j])
  }

  /** Dropping a key from an ascending sequence keeps it ascending and
      keeps every other key. */
  lemma AscendingRemove(a: seq<int>, key: int, rest: seq<int>)
    requires Ascending(a + [key] + rest)
    ensures Ascending(a + rest)
    ensures forall k :: k in a + rest <==> k in a + [key] + rest && k != key
  {
    var c := a + [key] + rest;
    var d := a + rest;
    forall x, y | 0 <= x < y < |d| ensures d[x] < d[y] {
      var x' := if x < |a| then x else x + 1;
      var y' := if y < |a| then y else y + 1;
      assert d[x] == c[x'] && d[y] == c[y'];
    }
    forall k ensures k in d <==> k in c && k != key {
      if k in d {
        var x :| 0 <= x < |d| && d[x] == k;
        var y := if x < |a| then x else x + 1;
        assert c[y] == k && y != |a| && c[|a|] == key;
      }
      if k in c && k != key {
        var y :| 0 <= y < |c| && c[y] == k;
        var x := if y < |a| then y else y - 1;
        assert y != |a| && d[x] == k;
      }
    }
  }

  /** A listed key stands where Under(key) stops admitting. */
  lemma KeyAt(c: seq<int>, key: int, q: nat)
    requires Ascending(c) && key in c && q <= |c|
    requires forall t :: 0 <= t < q ==> Admits(Under(key), c[t])
    requires forall t :: q <= t < |c| ==> !Admits(Under(key), c[t])
    ensures q < |c| && c[q] == key
  {
    var x :| 0 <= x < |c| && c[x] == key;
  }

  /** A stored key sits at the Under mark of the key order, between the keys
      below it and those above it. */
  lemma UnlinkSplit(order: seq<int>, key: int)
    requires Ascending(order) && key in order
    ensures var q := Prefix(order, Under(key));
      q < |order| && order[q] == key
      && order == order[..q] + [key] + order[q + 1..]
      && Ascending(order[..q] + order[q + 1..])
      && forall k :: k in order[..q] + order[q + 1..] <==> k in order && k != key
  {
    var q := Prefix(order, Under(key));
    assert q < |order| && order[q] == key by {
      PrefixSplit(order, Under(key));
      KeyAt(order, key, q);
    }
    var a := order[..q];
    var rest := order[q + 1..];
    assert order == a + [key] + rest;
    AscendingRemove(a, key, rest);
  }

  /** The unlinking of lines 120-122: every stopping node below the tower's
      height takes over the tower's link, and the node leaves the list. */
  function Unlink<V>(s: SkipMap<V>, update: seq<Option<int>>, key: int): SkipMap<V>
    requires ReadyToUnlink(s, update, key)
  {
    var r := Relink(s, update, s.nodes[key].rights);
    var q := Prefix(s.order, Under(key));
    UnlinkSplit(s.order, key);
    r.(nodes := r.nodes - {key}, order := s.order[..q] + s.order[q + 1..], size := s.size - 1)
  }

  /** The nodes of the list Unlink leaves. */
  lemma UnlinkNodes<V>(s: SkipMap<V>, update: seq<Option<int>>, key: int)
    requires ReadyToUnlink(s, update, key)
    ensures var t := Unlink(s, update, key);
      t.nodes.Keys == s.nodes.Keys - {key}
      && t.header == Redirect(s.header, None, update, s.nodes[key].rights)
      && forall k :: k in t.nodes ==>
           t.nodes[k].value == s.nodes[k].value
           && t.nodes[k].rights == Redirect(s.nodes[k].rights, Some(k), update, s.nodes[key].rights)
  {
  }

  /** A remaining node keeps its link on level `i` unless the walk stopped
      at it below the tower's height. */
  lemma UnlinkKept<V>(s: SkipMap<V>, update: seq<Option<int>>, key: int, i: nat, k: int)
    requires ReadyToUnlink(s, update, key) && OnLevel(s.nodes, k, i) && k != key
    ensures var t := Unlink(s, update, key); var tower := s.nodes[key].rights;
      OnLevel(t.nodes, k, i)
      && t.nodes[k].rights[i] == (if i < |tower| && update[i] == Some(k) then tower[i] else s.nodes[k].rights[i])
  {
    UnlinkNodes(s, update, key);
  }

  /** On level `i` the old chain is the keys below `key`, then `key` when its
      tower reaches the level, then the keys above; below the tower's height
      the walk stopped at the last key below. */
  lemma UnlinkStop<V>(s: SkipMap<V>, update: seq<Option<int>>, key: int, i: nat)
    requires ReadyToUnlink(s, update, key)
    ensures var q := Prefix(s.order, Under(key));
      q < |s.order|
      && var la := Level(s.order[..q], s.nodes, i);
      Chain(s, i) == la + (if OnLevel(s.nodes, key, i) then [key] else []) + Level(s.order[q + 1..], s.nodes, i)
      && (OnLevel(s.nodes, key, i) ==> update[i] == Last(la))
  {
    var q := Prefix(s.order, Under(key));
    assert q < |s.order| && s.order[q] == key by {
      UnlinkSplit(s.order, key);
    }
    UnlinkStopFloor(s, update, key, i);
    LevelAt(Chain(s, i), s.order, q, s.nodes, i);
  }

  /** A chain split at position `q` of `c` is the chain before `q`, then
      the key at `q` when it stands on the level, then the chain after. */
  lemma LevelAt<V>(chain: seq<int>, c: seq<int>, q: int, n: map<int, Node<V>>, i: nat)
    requires 0 <= q < |c| && chain == Level(c[..q], n, i) + Level(c[q..], n, i)
    ensures chain == Level(c[..q], n, i) + (if OnLevel(n, c[q], i) then [c[q]] else []) + Level(c[q + 1..], n, i)
  {
    assert c[q..] == [c[q]] + c[q + 1..];
    LevelCons(c[q], c[q + 1..], n, i);
  }

  /** The chain of `[key] + rest` is `key` when it stands on the level, then
      the chain of `rest`. */
  lemma LevelCons<V>(key: int, rest: seq<int>, n: map<int, Node<V>>, i: nat)
    ensures Level([key] + rest, n, i) == (if OnLevel(n, key, i) then [key] else []) + Level(rest, n, i)
  {
    assert ([key] + rest)[1..] == rest;
  }

  /** The level-`i` chain splits at the Prefix mark of `key`, and within the
      tower the walk stopped at the last key of the first half. */
  lemma UnlinkStopFloor<V>(s: SkipMap<V>, update: seq<Option<int>>, key: int, i: nat)
    requires ReadyToUnlink(s, update, key)
    ensures var q := Prefix(s.order, Under(key)); var la := Level(s.order[..q], s.nodes, i);
      Chain(s, i) == la + Level(s.order[q..], s.nodes, i)
      && (OnLevel(s.nodes, key, i) ==> update[i] == Last(la))
  {
    var q := Prefix(s.order, Under(key));
    var a := s.order[..q];
    PrefixSplit(s.order, Under(key));
    if OnLevel(s.nodes, key, i) {
      SplitFloor(s.nodes, s.order, i, Under(key), update[i], q);
    } else {
      LevelConcat(a, s.order[q..], s.nodes, i);
      assert s.order == a + s.order[q..];
    }
  }

  /** Leaving out a node that is not listed in `c` keeps the chain of `c`. */
  lemma LevelExcept<V>(c: seq<int>, n1: map<int, Node<V>>, n2: map<int, Node<V>>, i: nat, key: int)
    requires key !in c
    requires forall k :: k != key ==> (OnLevel(n1, k, i) <==> OnLevel(n2, k, i))
    ensures Level(c, n1, i) == Level(c, n2, i)
  {
    forall t | 0 <= t < |c| ensures OnLevel(n1, c[t], i) <==> OnLevel(n2, c[t], i) {
      assert c[t] in c;
    }
    LevelFrame(c, n1, n2, i);
  }

  /** Unlink takes `key` off every level and leaves the other nodes' heights. */
  lemma UnlinkOnLevel<V>(s: SkipMap<V>, update: seq<Option<int>>, key: int, i: nat)
    requires ReadyToUnlink(s, update, key)
    ensures var t := Unlink(s, update, key);
      forall k :: k != key ==> (OnLevel(s.nodes, k, i) <==> OnLevel(t.nodes, k, i))
  {
    UnlinkNodes(s, update, key);
  }

  /** Level `i` of the list Unlink leaves: the old chain without `key`. */
  lemma UnlinkChain<V>(s: SkipMap<V>, update: seq<Option<int>>, key: int, i: nat)
    requires ReadyToUnlink(s, update, key)
    ensures var q := Prefix(s.order, Under(key));
      var t := Unlink(s, update, key);
      q < |s.order|
      && Chain(t, i) == Level(s.order[..q], s.nodes, i) + Level(s.order[q + 1..], s.nodes, i)
  {
    var q := Prefix(s.order, Under(key));
    var t := Unlink(s, update, key);
    UnlinkSplit(s.order, key);
    var a := s.order[..q];
    var rest := s.order[q + 1..];
    assert Level(a + rest, t.nodes, i) == Level(a, t.nodes, i) + Level(rest, t.nodes, i) by {
      LevelConcat(a, rest, t.nodes, i);
    }
    assert key !in a && key !in rest by {
      assert forall k :: k in a ==> k in a + rest;
      assert forall k :: k in rest ==> k in a + rest;
    }
    UnlinkOnLevel(s, update, key, i);
    LevelExcept(a, s.nodes, t.nodes, i, key);
    LevelExcept(rest, s.nodes, t.nodes, i, key);
  }

  /** Above the tower Unlink writes no link: level `i` is unchanged. */
  lemma UnlinkAbove<V>(s: SkipMap<V>, update: seq<Option<int>>, key: int, i: nat)
    requires ReadyToUnlink(s, update, key) && !OnLevel(s.nodes, key, i) && i < |s.header|
    requires Linked(s.header, s.nodes, i, Chain(s, i))
    ensures var t := Unlink(s, update, key); Linked(t.header, t.nodes, i, Chain(t, i))
  {
    var t := Unlink(s, update, key);
    var c := Chain(s, i);
    assert Chain(t, i) == c by {
      var q := Prefix(s.order, Under(key));
      UnlinkStop(s, update, key, i);
      UnlinkChain(s, update, key, i);
      assert Level(s.order[..q], s.nodes, i) + [] == Level(s.order[..q], s.nodes, i);
    }
    assert i < |t.header| && t.header[i] == s.header[i] by {
      UnlinkNodes(s, update, key);
    }
    forall x | 0 <= x < |c|
      ensures OnLevel(t.nodes, c[x], i) && t.nodes[c[x]].rights[i] == s.nodes[c[x]].rights[i]
    {
      assert OnLevel(s.nodes, c[x], i);
      UnlinkKept(s, update, key, i, c[x]);
    }
    LinkedFrame(s.header, s.nodes, t.header, t.nodes, i, c);
  }

  /** On a level the tower reaches, the node before `key` takes over the
      tower's link and every other node keeps its own. */
  lemma UnlinkBypass<V>(s: SkipMap<V>, update: seq<Option<int>>, key: int, i: nat, la: seq<int>, lr: seq<int>)
    requires ReadyToUnlink(s, update, key) && OnLevel(s.nodes, key, i)
    requires Linked(s.header, s.nodes, i, la + [key] + lr) && Ascending(la + [key] + lr)
    requires update[i] == Last(la) && s.nodes[key].rights[i] == First(lr)
    ensures var t := Unlink(s, update, key); var d := la + lr;
      forall x :: 0 <= x < |d| ==>
        OnLevel(s.nodes, d[x], i) && OnLevel(t.nodes, d[x], i)
        && t.nodes[d[x]].rights[i] == (if Some(d[x]) == Last(la) then First(lr) else s.nodes[d[x]].rights[i])
  {
    var d := la + lr;
    DropOnLevel(s.nodes, i, la, key, lr);
    AscendingRemove(la, key, lr);
    forall x | 0 <= x < |d|
      ensures OnLevel(Unlink(s, update, key).nodes, d[x], i)
      && Unlink(s, update, key).nodes[d[x]].rights[i]
         == (if Some(d[x]) == Last(la) then First(lr) else s.nodes[d[x]].rights[i])
    {
      assert d[x] in d;
      UnlinkKept(s, update, key, i, d[x]);
    }
  }

  /** Dropping `key` from a chain whose keys all stand on level `i` leaves a
      chain whose keys all do. */
  lemma DropOnLevel<V>(n: map<int, Node<V>>, i: nat, la: seq<int>, key: int, lr: seq<int>)
    requires forall t :: 0 <= t < |la + [key] + lr| ==> OnLevel(n, (la + [key] + lr)[t], i)
    ensures forall x :: 0 <= x < |la + lr| ==> OnLevel(n, (la + lr)[x], i)
  {
    var c := la + [key] + lr;
    var d := la + lr;
    forall x | 0 <= x < |d|
      ensures OnLevel(n, d[x], i)
    {
      var y := if x < |la| then x else x + 1;
      assert d[x] == c[y];
    }
  }

  /** Within the tower Unlink points the node before `key` past it. */
  lemma UnlinkBelow<V>(s: SkipMap<V>, update: seq<Option<int>>, key: int, i: nat)
    requires ReadyToUnlink(s, update, key) && OnLevel(s.nodes, key, i) && i < |s.header|
    requires Linked(s.header, s.nodes, i, Chain(s, i)) && Ascending(Chain(s, i))
    ensures var t := Unlink(s, update, key); Linked(t.header, t.nodes, i, Chain(t, i))
  {
    var t := Unlink(s, update, key);
    var q := Prefix(s.order, Under(key));
    assert q < |s.order| by {
      UnlinkSplit(s.order, key);
    }
    var la := Level(s.order[..q], s.nodes, i);
    var lr := Level(s.order[q + 1..], s.nodes, i);
    var c := la + [key] + lr;
    assert Chain(s, i) == c && update[i] == Last(la) by {
      UnlinkStop(s, update, key, i);
    }
    assert Chain(t, i) == la + lr by {
      UnlinkChain(s, update, key, i);
    }
    assert s.nodes[key].rights[i] == First(lr) by {
      StepAt(s, i, c, |la|);
      assert c[|la|] == key;
      assert |la| + 1 < |c| ==> c[|la| + 1] == lr[0];
    }
    assert i < |t.header| && t.header[i] == (if la == [] then First(lr) else s.header[i]) by {
      UnlinkNodes(s, update, key);
    }
    UnlinkBypass(s, update, key, i, la, lr);
    LinkedCut(s.header, s.nodes, t.header, t.nodes, i, la, lr, key);
  }

  /** Unlink keeps the invariant and takes `key` out of the map. */
  lemma UnlinkValid<V>(s: SkipMap<V>, update: seq<Option<int>>, key: int)
    requires Valid(s) && ReadyToUnlink(s, update, key)
    ensures Valid(Unlink(s, update, key))
    ensures Contents(Unlink(s, update, key)) == Contents(s) - {key}
  {
    UnlinkShape(s, update, key);
    UnlinkLevels(s, update, key);
    UnlinkContents(s, update, key);
  }

  /** Unlinking keeps the key listing ascending and in step with the nodes. */
  lemma UnlinkShape<V>(s: SkipMap<V>, update: seq<Option<int>>, key: int)
    requires Valid(s) && ReadyToUnlink(s, update, key)
    ensures var t := Unlink(s, update, key);
      1 <= t.levelCount <= t.maxLevel && |t.header| == t.maxLevel + 1
      && Ascending(t.order) && (forall k :: k in t.nodes <==> k in t.order)
      && t.size == |t.order|
      && forall k :: k in t.nodes ==> 1 <= |t.nodes[k].rights| <= t.levelCount
  {
    UnlinkNodes(s, update, key);
    UnlinkSplit(s.order, key);
  }

  /** Unlinking keeps every level linked. */
  lemma UnlinkLevels<V>(s: SkipMap<V>, update: seq<Option<int>>, key: int)
    requires Valid(s) && ReadyToUnlink(s, update, key)
    ensures var t := Unlink(s, update, key);
      forall i: nat :: i <= t.maxLevel ==> Linked(t.header, t.nodes, i, Chain(t, i))
  {
    var t := Unlink(s, update, key);
    forall i: nat | i <= t.maxLevel ensures Linked(t.header, t.nodes, i, Chain(t, i)) {
      ChainFacts(s, i);
      if OnLevel(s.nodes, key, i) {
        UnlinkBelow(s, update, key, i);
      } else {
        UnlinkAbove(s, update, key, i);
      }
    }
  }

  /** Unlinking removes exactly `key` from the map. */
  lemma UnlinkContents<V>(s: SkipMap<V>, update: seq<Option<int>>, key: int)
    requires ReadyToUnlink(s, update, key)
    ensures Contents(Unlink(s, update, key)) == Contents(s) - {key}
  {
    UnlinkNodes(s, update, key);
  }

  /** `remove(key)`, that is `delete(key)` as written (lines 103-125): the
      walk stops before `key` on every level and line 116 reads the key of
      the node after the level-0 stop, which is TRAILER's null key when every
      stored key is below `key`. */
  method Remove<V>(s: SkipMap<V>, key: int) returns (r: Outcome<(SkipMap<V>, Option<V>)>)
    requires Valid(s)
    ensures r.Throws? <==> forall k :: k in Contents(s) ==> k < key
    ensures r.Throws? ==> r.error == NullPointer
    ensures r.Ok? ==> Valid(r.value.0) && r.value.0.maxLevel == s.maxLevel
    ensures r.Ok? ==> Contents(r.value.0) == Contents(s) - {key}
    ensures r.Ok? ==> r.value.1 == Lookup(Contents(s), key)
    ensures r.Ok? ==> r.value.0.size == if key in Contents(s) then s.size - 1 else s.size
  {
    var update := Descend(s, Under(key));
    Successor(s, Under(key), update[0]);
    var next := Rights(s, update[0])[0];
    if next.None? {
      return Throws(NullPointer);
    }
    if next.value != key {
      assert Contents(s) - {key} == Contents(s);
      return Ok((s, None));
    }
    ValidListed(s);
    var t := Unlink(s, update, key);
    UnlinkValid(s, update, key);
    return Ok((t, Some(s.nodes[key].value)));
  }

  /** `remove(key)` with the successor's key read only when there is one: a
      missing key leaves the list as it is. */
  method RemoveFixed<V>(s: SkipMap<V>, key: int) returns (t: SkipMap<V>, r: Option<V>)
    requires Valid(s)
    ensures Valid(t) && t.maxLevel == s.maxLevel
    ensures Contents(t) == Contents(s) - {key}
    ensures r == Lookup(Contents(s), key)
    ensures t.size == if key in Contents(s) then s.size - 1 else s.size
  {
    var o := Remove(s, key);
    if o.Throws? {
      assert Contents(s) - {key} == Contents(s);
      return s, None;
    }
    t, r := o.value.0, o.value.1;
  }

  /** Removing from an empty skip list throws. */
  method RemoveFromEmpty() returns (r: Outcome<(SkipMap<int>, Option<int>)>)
    ensures r == Throws(NullPointer)
  {
    r := Remove(Empty<int>(DefaultMaxLevel), 0);
  }

  // ---------------------------------------------------------------------
  // Level-0 traversals

  /** The part of `m` whose keys lie in `[from, to)`. */
  function Within<V>(m: map<int, V>, from: int, to: int): (w: map<int, V>)
    ensures forall k :: k in w <==> k in m && from <= k < to
  {
    map k | k in m && from <= k < to :: m[k]
  }

  /** A run of the key order, read off as entries, is a listing. */
  lemma RunListing<V>(s: SkipMap<V>, p: nat, j: nat, es: seq<Entry<V>>)
    requires Ascending(s.order) && p <= j <= |s.order|
    requires forall t :: 0 <= t < |s.order| ==> s.order[t] in s.nodes
    requires |es| == j - p
    requires forall t :: 0 <= t < |es| ==> es[t] == Entry(s.order[p + t], s.nodes[s.order[p + t]].value)
    ensures Listing(Contents(s), es)
    ensures KeysOf(es) == set t | p <= t < j :: s.order[t]
  {
    forall a, b | 0 <= a < b < |es| ensures es[a].key < es[b].key {
      assert es[a].key == s.order[p + a] && es[b].key == s.order[p + b];
    }
    forall t | 0 <= t < |es| ensures es[t].key in Contents(s) && Contents(s)[es[t].key] == es[t].value {
      assert s.order[p + t] in s.nodes;
    }
    forall k | k in KeysOf(es) ensures k in set t | p <= t < j :: s.order[t] {
      var x :| 0 <= x < |es| && es[x].key == k;
      assert s.order[p + x] == k;
    }
    forall k | k in (set t | p <= t < j :: s.order[t]) ensures k in KeysOf(es) {
      var x :| p <= x < j && s.order[x] == k;
      assert es[x - p].key == k;
    }
  }

  /** A listing that holds every key of `m` stands for `m`. */
  lemma ListingAsMap<V>(m: map<int, V>, es: seq<Entry<V>>)
    requires Listing(m, es) && KeysOf(es) == m.Keys
    ensures DistinctKeys(es) && AsMap(es) == m
  {
    AsMapKeys(es);
    forall k | k in m ensures AsMap(es)[k] == m[k] {
      var x :| 0 <= x < |es| && es[x].key == k;
      AsMapAt(es, x);
    }
  }

  /** The level-0 links thread the key order from HEADER to TRAILER. */
  ghost predicate Threaded<V>(s: SkipMap<V>) {
    Ascending(s.order) && Walkable(s)
  }

  /** HEADER's level-0 link and the nodes' level-0 links follow the key
      order, whatever that order is. */
  ghost predicate Walkable<V>(s: SkipMap<V>) {
    1 <= |s.header| && s.header[0] == First(s.order)
    && (forall t :: 0 <= t < |s.order| ==> s.order[t] in s.nodes)
    && forall t {:trigger s.nodes[s.order[t]]} :: 0 <= t < |s.order| ==>
         1 <= |s.nodes[s.order[t]].rights|
         && s.nodes[s.order[t]].rights[0] == Next(s.order, t)
  }

  lemma ValidThreaded<V>(s: SkipMap<V>)
    requires Valid(s)
    ensures Threaded(s)
  {
    Level0(s);
    ChainFacts(s, 0);
    OrderStored(s);
  }

  /** The level-0 walk of entrySet and subMap (lines 187-192, 278-281): from
      the node at position `p` of the key order, collect entries while `b`
      admits their keys; `j` is where the walk stopped. */
  method Run<V>(s: SkipMap<V>, p: nat, b: Bound, start: Option<int>) returns (es: seq<Entry<V>>, j: nat)
    requires Walkable(s) && p <= |s.order|
    requires start == (if p < |s.order| then Some(s.order[p]) else None)
    ensures p <= j <= |s.order|
    ensures forall t :: p <= t < j ==> Admits(b, s.order[t])
    ensures j < |s.order| ==> !Admits(b, s.order[j])
    ensures |es| == j - p
    ensures forall t :: 0 <= t < |es| ==> es[t] == Entry(s.order[p + t], s.nodes[s.order[p + t]].value)
  {
    es := [];
    var node := start;
    j := p;
    while node.Some? && Admits(b, node.value)
      invariant node == (if j < |s.order| then Some(s.order[j]) else None)
      invariant Collected(s, p, b, j, es)
      decreases |s.order| - j
    {
      assert s.order[j] in s.nodes && s.nodes[s.order[j]].rights[0] == Next(s.order, j);
      RunStep(s, p, b, j, es);
      es := es + [Entry(node.value, s.nodes[node.value].value)];
      node := s.nodes[node.value].rights[0];
      j := j + 1;
    }
  }

  /** The walk of Run has passed the admitted keys at positions `p` to
      `j - 1` and collected their entries in order. */
  ghost predicate Collected<V>(s: SkipMap<V>, p: nat, b: Bound, j: nat, es: seq<Entry<V>>) {
    p <= j <= |s.order| && |es| == j - p
    && (forall t :: p <= t < j ==> Admits(b, s.order[t]))
    && forall t :: 0 <= t < |es| ==>
         s.order[p + t] in s.nodes && es[t] == Entry(s.order[p + t], s.nodes[s.order[p + t]].value)
  }

  /** One step of Run: the entry of the admitted, stored node at position
      `j` extends the collection. */
  lemma RunStep<V>(s: SkipMap<V>, p: nat, b: Bound, j: nat, es: seq<Entry<V>>)
    requires Collected(s, p, b, j, es)
    requires j < |s.order| && Admits(b, s.order[j]) && s.order[j] in s.nodes
    ensures Collected(s, p, b, j + 1, es + [Entry(s.order[j], s.nodes[s.order[j]].value)])
  {
    var es' := es + [Entry(s.order[j], s.nodes[s.order[j]].value)];
    forall t | 0 <= t < |es'|
      ensures s.order[p + t] in s.nodes && es'[t] == Entry(s.order[p + t], s.nodes[s.order[p + t]].value)
    {
      if t < |es| {
        assert es'[t] == es[t];
      }
    }
  }

  /** `entrySet()` (lines 183-194): the level-0 walk from HEADER to TRAILER
      lists every entry once, in ascending key order. */
  method EntrySet<V>(s: SkipMap<V>) returns (es: seq<Entry<V>>)
    requires Valid(s)
    ensures Listing(Contents(s), es)
    ensures KeysOf(es) == Contents(s).Keys
    ensures AsMap(es) == Contents(s)
    ensures |es| == s.size
  {
    ValidThreaded(s);
    var j;
    es, j := Run(s, 0, Unbounded, s.header[0]);
    assert Listing(Contents(s), es) && KeysOf(es) == Contents(s).Keys by {
      RunListing(s, 0, j, es);
      forall k | k in Contents(s) ensures k in KeysOf(es) {
        var x :| 0 <= x < |s.order| && s.order[x] == k;
      }
    }
    ListingAsMap(Contents(s), es);
  }

  /** The keys an ascending order holds in `[from, to)` are the run from the
      first key not below `from` up to the first key not below `to`. */
  lemma WindowKeys(c: seq<int>, p: nat, j: nat, from: int, to: int)
    requires Ascending(c) && p <= j <= |c|
    requires forall t :: 0 <= t < p ==> c[t] < from
    requires forall t :: p <= t < |c| ==> from <= c[t]
    requires forall t :: p <= t < j ==> c[t] < to
    requires j < |c| ==> to <= c[j]
    ensures (set t | p <= t < j :: c[t]) == set k | k in c && from <= k < to
  {
    forall k | k in c && from <= k < to ensures k in set t | p <= t < j :: c[t] {
      var x :| 0 <= x < |c| && c[x] == k;
    }
  }

  /** Where the subMap walk stops: the least key not below `to`, or
      TRAILER when there is none. */
  lemma EndPlace<V>(s: SkipMap<V>, p: nat, j: nat, from: int, to: int)
    requires Threaded(s) && (forall k :: k in s.nodes ==> k in s.order)
    requires from < to && p <= j <= |s.order|
    requires forall t :: 0 <= t < p ==> s.order[t] < from
    requires forall t :: p <= t < j ==> s.order[t] < to
    requires j < |s.order| ==> to <= s.order[j]
    ensures var end := if j < |s.order| then Some(s.order[j]) else None;
      (end.None? || end.value in s.nodes)
      && LeastPlace(Contents(s), Under(to), PlaceOf(s, end, TrailerNode))
      && (end.None? <==> forall k :: k in Contents(s) ==> k < to)
  {
    if j < |s.order| {
      assert s.order[j] in s.order;
      forall k | k in Contents(s) && to <= k ensures s.order[j] <= k {
        var x :| 0 <= x < |s.order| && s.order[x] == k;
        assert j == x || s.order[j] < s.order[x];
      }
    } else {
      forall k | k in Contents(s) ensures k < to {
        var x :| 0 <= x < |s.order| && s.order[x] == k;
      }
    }
  }

  /** What the subMap walk gathered, from the first key not below `from`
      to position `j`: the entries of `[from, to)`. */
  lemma ScanListing<V>(s: SkipMap<V>, p: nat, j: nat, from: int, to: int, view: seq<Entry<V>>)
    requires Threaded(s) && (forall k :: k in s.nodes ==> k in s.order)
    requires p == Prefix(s.order, Under(from)) && p <= j <= |s.order|
    requires forall t :: p <= t < j ==> Admits(Under(to), s.order[t])
    requires j < |s.order| ==> !Admits(Under(to), s.order[j])
    requires |view| == j - p
    requires forall t :: 0 <= t < |view| ==> view[t] == Entry(s.order[p + t], s.nodes[s.order[p + t]].value)
    ensures Listing(Contents(s), view)
    ensures AsMap(view) == Within(Contents(s), from, to)
  {
    ScanWindow(s, p, j, from, to, view);
    assert Listing(Within(Contents(s), from, to), view);
    ListingAsMap(Within(Contents(s), from, to), view);
  }

  /** The subMap walk gathered entries of the map, and exactly the keys of
      `[from, to)`. */
  lemma ScanWindow<V>(s: SkipMap<V>, p: nat, j: nat, from: int, to: int, view: seq<Entry<V>>)
    requires Threaded(s) && (forall k :: k in s.nodes ==> k in s.order)
    requires p == Prefix(s.order, Under(from)) && p <= j <= |s.order|
    requires forall t :: p <= t < j ==> Admits(Under(to), s.order[t])
    requires j < |s.order| ==> !Admits(Under(to), s.order[j])
    requires |view| == j - p
    requires forall t :: 0 <= t < |view| ==> view[t] == Entry(s.order[p + t], s.nodes[s.order[p + t]].value)
    ensures Listing(Contents(s), view) && KeysOf(view) == Within(Contents(s), from, to).Keys
  {
    RunListing(s, p, j, view);
    PrefixSplit(s.order, Under(from));
    WindowKeys(s.order, p, j, from, to);
  }

  /** The loop of subMap (lines 277-281) with TRAILER stopping it: from the
      first key not below `from`, the entries below `to`, and the node the
      walk stopped at. */
  method Scan<V>(s: SkipMap<V>, from: int, to: int) returns (view: seq<Entry<V>>, end: Option<int>)
    requires Valid(s) && from < to
    ensures end.None? <==> forall k :: k in Contents(s) ==> k < to
    ensures end.None? || end.value in s.nodes
    ensures LeastPlace(Contents(s), Under(to), PlaceOf(s, end, TrailerNode))
    ensures Listing(Contents(s), view)
    ensures AsMap(view) == Within(Contents(s), from, to)
  {
    var update := Descend(s, Under(from));
    var p := Prefix(s.order, Under(from));
    assert (update[0].None? || update[0].value in s.nodes) && 0 < |Rights(s, update[0])|
      && Rights(s, update[0])[0] == (if p < |s.order| then Some(s.order[p]) else None) by {
      SuccessorAt(s, Under(from), update[0]);
    }
    ValidThreaded(s);
    var j;
    view, j := Run(s, p, Under(to), Rights(s, update[0])[0]);
    end := if j < |s.order| then Some(s.order[j]) else None;
    ScanListing(s, p, j, from, to, view);
    ScanEnd(s, p, j, from, to);
  }

  /** Where the subMap walk stopped: the least key not below `to`, or
      TRAILER when every key is below `to`. */
  lemma ScanEnd<V>(s: SkipMap<V>, p: nat, j: nat, from: int, to: int)
    requires Threaded(s) && (forall k :: k in s.nodes ==> k in s.order)
    requires from < to && p == Prefix(s.order, Under(from)) && p <= j <= |s.order|
    requires forall t :: p <= t < j ==> Admits(Under(to), s.order[t])
    requires j < |s.order| ==> !Admits(Under(to), s.order[j])
    ensures var end := if j < |s.order| then Some(s.order[j]) else None;
      (end.None? || end.value in s.nodes)
      && LeastPlace(Contents(s), Under(to), PlaceOf(s, end, TrailerNode))
      && (end.None? <==> forall k :: k in Contents(s) ==> k < to)
  {
    PrefixSplit(s.order, Under(from));
    EndPlace(s, p, j, from, to);
  }

  /** `subMap(fromKey, toKey)` as written (lines 259-283): null for an empty
      range; otherwise the loop runs into TRAILER, whose null key line 278
      reads, unless some key is at least `toKey`. */
  method SubMap<V>(s: SkipMap<V>, from: int, to: int) returns (r: Outcome<Option<seq<Entry<V>>>>)
    requires Valid(s)
    ensures to <= from ==> r == Ok(None)
    ensures from < to ==> (r.Throws? <==> forall k :: k in Contents(s) ==> k < to)
    ensures r.Throws? ==> r.error == NullPointer
    ensures from < to && r.Ok? ==>
      r.value.Some? && Listing(Contents(s), r.value.value)
      && AsMap(r.value.value) == Within(Contents(s), from, to)
  {
    if from >= to {
      return Ok(None);
    }
    var view, end := Scan(s, from, to);
    if end.None? {
      return Throws(NullPointer);
    }
    return Ok(Some(view));
  }

  /** `subMap(fromKey, toKey)` with TRAILER ending the loop. */
  method SubMapFixed<V>(s: SkipMap<V>, from: int, to: int) returns (r: Option<seq<Entry<V>>>)
    requires Valid(s)
    ensures r.None? <==> to <= from
    ensures r.Some? ==> Listing(Contents(s), r.value) && AsMap(r.value) == Within(Contents(s), from, to)
  {
    if from >= to {
      return None;
    }
    var view, end := Scan(s, from, to);
    return Some(view);
  }

  /** A range query on a skip list whose keys all lie below the range's
      upper end throws. */
  method SubMapOfEmpty() returns (r: Outcome<Option<seq<Entry<int>>>>)
    ensures r == Throws(NullPointer)
  {
    r := SubMap(Empty<int>(DefaultMaxLevel), 0, 1);
  }
}
