/** map/LinearProbeHashMap.java: open addressing with linear probing. A slot
    is null, the shared DEFUNCT marker left by a removal, or a live entry. */
module LinearProbeHashMap {
  import opened Common
  import opened Entries
  import opened HashCommon
  import Ring

  datatype Slot<V> = Empty | Defunct | Full(key: int, value: V)

  /** The slot array `table`. */
  type Slots<V> = seq<Slot<V>>

  /** `isAvailable(i)`: slot `i` holds no live entry. */
  predicate IsAvailable<V>(t: Slots<V>, i: int)
    requires 0 <= i < |t|
  {
    t[i] == Empty || t[i] == Defunct
  }

  /** The slot `i` probes after `h`, wrapping around the table. */
  function Step(h: int, i: int, cap: int): (j: int)
    requires 0 <= h < cap && 0 <= i < cap
    ensures 0 <= j < cap
  {
    if h + i < cap then h + i else h + i - cap
  }

  /** The number of probes from `h` to slot `p`. */
  function Dist(h: int, p: int, cap: int): (d: int)
    requires 0 <= h < cap && 0 <= p < cap
    ensures 0 <= d < cap && Step(h, d, cap) == p
  {
    if p >= h then p - h else p + cap - h
  }

  /** The slot after probe `s` is probe `s + 1`, or `h` again after a full
      turn. */
  lemma StepNext(h: int, s: int, cap: int)
    requires 0 <= h < cap && 0 <= s < cap
    ensures (Step(h, s, cap) + 1) % cap == if s + 1 < cap then Step(h, s + 1, cap) else h
  {
    Ring.ModOnce(Step(h, s, cap) + 1, cap);
  }

  /** Probe steps from one start reach distinct slots. */
  lemma StepInjective(h: int, i: int, i': int, cap: int)
    requires 0 <= h < cap && 0 <= i < cap && 0 <= i' < cap
    ensures Step(h, i, cap) == Step(h, i', cap) ==> i == i'
    ensures Dist(h, Step(h, i, cap), cap) == i
  {
  }

  /** No two live entries share a key. */
  predicate DistinctLive<V>(t: Slots<V>) {
    forall i, j :: 0 <= i < j < |t| && t[i].Full? && t[j].Full? ==> t[i].key != t[j].key
  }

  /** The slots a search for the entry at `p` passes hold no null. */
  predicate RunClear<V>(t: Slots<V>, hs: Hasher, p: int)
    requires ValidHasher(hs) && 0 <= p < |t| && t[p].Full?
  {
    var home := HashValue(hs, t[p].key, |t|);
    forall i :: 0 <= i < Dist(home, p, |t|) ==> t[Step(home, i, |t|)] != Empty
  }

  /** The table invariant: live keys are distinct and each is reachable from
      its hash slot without crossing a null slot. */
  predicate Valid<V>(t: Slots<V>, hs: Hasher) {
    && ValidHasher(hs) && 1 <= |t|
    && DistinctLive(t)
    && forall p :: 0 <= p < |t| && t[p].Full? ==> RunClear(t, hs, p)
  }

  /** Every slot holds a live entry. */
  predicate AllFull<V>(t: Slots<V>) {
    forall p :: 0 <= p < |t| ==> t[p].Full?
  }

  /** The live entries in slot order. */
  function Live<V>(t: Slots<V>): seq<Entry<V>> {
    if t == [] then []
    else Live(t[..|t| - 1]) + (if t[|t| - 1].Full? then [Entry(t[|t| - 1].key, t[|t| - 1].value)] else [])
  }

  /** The map the table stands for. */
  function Contents<V>(t: Slots<V>): map<int, V> {
    AsMap(Live(t))
  }

  /** The keys of the live entries. */
  function LiveKeys<V>(t: Slots<V>): set<int> {
    set p | 0 <= p < |t| && t[p].Full? :: t[p].key
  }

  /** The keys listed by `Live(t)` are the keys of the live slots. */
  lemma {:induction false} LiveKeysOf<V>(t: Slots<V>)
    ensures KeysOf(Live(t)) == LiveKeys(t)
  {
    if t != [] {
      var q := t[..|t| - 1];
      var last := t[|t| - 1];
      LiveKeysOf(q);
      var tail := if last.Full? then [Entry(last.key, last.value)] else [];
      KeysOfConcat(Live(q), tail);
      forall x | x in LiveKeys(t) ensures x in LiveKeys(q) + KeysOf(tail) {
        var p :| 0 <= p < |t| && t[p].Full? && t[p].key == x;
        if p < |q| {
          assert q[p] == t[p];
        } else {
          assert tail[0].key == x;
        }
      }
      forall x | x in LiveKeys(q) ensures x in LiveKeys(t) {
        var p :| 0 <= p < |q| && q[p].Full? && q[p].key == x;
        assert t[p] == q[p];
      }
      forall x | x in KeysOf(tail) ensures x in LiveKeys(t) {
        assert t[|t| - 1].key == x;
      }
    }
  }

  /** Distinct live keys list without repetition. */
  lemma {:induction false} LiveDistinct<V>(t: Slots<V>)
    requires DistinctLive(t)
    ensures DistinctKeys(Live(t))
  {
    if t != [] {
      var q := t[..|t| - 1];
      var last := t[|t| - 1];
      assert DistinctLive(q);
      LiveDistinct(q);
      if last.Full? {
        LiveKeysOf(q);
        forall x | x in LiveKeys(q) ensures x != last.key {
          var p :| 0 <= p < |q| && q[p].Full? && q[p].key == x;
          assert t[p] == q[p];
        }
        DistinctConcat(Live(q), [Entry(last.key, last.value)]);
      } else {
        assert Live(t) == Live(q);
      }
    }
  }

  /** The map holds each live slot's value under its key. */
  lemma {:induction false} LiveValues<V>(t: Slots<V>, p: int)
    requires DistinctLive(t) && 0 <= p < |t| && t[p].Full?
    ensures t[p].key in Contents(t) && Contents(t)[t[p].key] == t[p].value
  {
    var q := t[..|t| - 1];
    var last := t[|t| - 1];
    if last.Full? {
      var e := Entry(last.key, last.value);
      assert (Live(q) + [e])[..|Live(q)|] == Live(q);
      assert Contents(t) == Contents(q)[last.key := last.value];
      if p < |q| {
        assert q[p] == t[p];
        assert DistinctLive(q);
        LiveValues(q, p);
      }
    } else {
      assert Live(t) == Live(q);
      assert q[p] == t[p];
      assert DistinctLive(q);
      LiveValues(q, p);
    }
  }

  /** There are no more live entries than slots, and as many only when every
      slot is live. */
  lemma {:induction false} LiveLength<V>(t: Slots<V>)
    ensures |Live(t)| <= |t| && (|Live(t)| == |t| <==> AllFull(t))
  {
    if t != [] {
      var q := t[..|t| - 1];
      LiveLength(q);
      if AllFull(t) {
        assert forall p :: 0 <= p < |q| ==> q[p] == t[p];
        assert AllFull(q);
      }
      if |Live(t)| == |t| {
        assert |Live(q)| == |q|;
        forall p | 0 <= p < |t| ensures t[p].Full? {
          if p < |q| { assert q[p] == t[p]; }
        }
      }
    }
  }

  /** The live entries, read as a map, hold exactly the live slots; a table
      whose live entries are as many as its slots is full. */
  lemma LiveFacts<V>(t: Slots<V>)
    requires DistinctLive(t)
    ensures DistinctKeys(Live(t))
    ensures Contents(t).Keys == LiveKeys(t)
    ensures forall p :: 0 <= p < |t| && t[p].Full? ==> Contents(t)[t[p].key] == t[p].value
    ensures |Live(t)| <= |t| && (|Live(t)| == |t| <==> AllFull(t))
  {
    LiveDistinct(t);
    LiveKeysOf(t);
    AsMapKeys(Live(t));
    forall p | 0 <= p < |t| && t[p].Full? ensures Contents(t)[t[p].key] == t[p].value {
      LiveValues(t, p);
    }
    LiveLength(t);
  }

  /** Storing an entry in a slot that is available or holds the same key
      updates that key of the map. */
  lemma {:induction false} StoreSlot<V>(t: Slots<V>, p: int, k: int, v: V)
    requires DistinctLive(t) && 0 <= p < |t|
    requires t[p].Full? ==> t[p].key == k
    requires t[p].Full? || k !in Contents(t)
    ensures DistinctLive(t[p := Full(k, v)])
    ensures Contents(t[p := Full(k, v)]) == Contents(t)[k := v]
  {
    var t' := t[p := Full(k, v)];
    LiveFacts(t);
    forall q | 0 <= q < |t| && q != p && t[q].Full? ensures t[q].key != k {
      assert t[q].key in LiveKeys(t);
    }
    assert DistinctLive(t');
    LiveFacts(t');
    forall x ensures Lookup(Contents(t'), x) == Lookup(Contents(t)[k := v], x) {
      if x == k {
        assert t'[p] == Full(k, v);
      } else if x in LiveKeys(t) {
        var q :| 0 <= q < |t| && t[q].Full? && t[q].key == x;
        assert t'[q] == t[q];
      } else {
        forall q | 0 <= q < |t'| && t'[q].Full? ensures t'[q].key != x {
          if q != p {
            assert t'[q] == t[q];
            assert t[q].key in LiveKeys(t);
          }
        }
      }
    }
    LookupExt(Contents(t'), Contents(t)[k := v]);
  }

  /** Replacing a live entry by DEFUNCT removes its key. */
  lemma {:induction false} ClearSlot<V>(t: Slots<V>, p: int)
    requires DistinctLive(t) && 0 <= p < |t| && t[p].Full?
    ensures DistinctLive(t[p := Defunct])
    ensures Contents(t[p := Defunct]) == Contents(t) - {t[p].key}
  {
    var t' := t[p := Defunct];
    var k := t[p].key;
    LiveFacts(t);
    LiveFacts(t');
    assert LiveKeys(t') == LiveKeys(t) - {k} by {
      forall x | x in LiveKeys(t') ensures x in LiveKeys(t) - {k} {
        var q :| 0 <= q < |t'| && t'[q].Full? && t'[q].key == x;
        assert t'[q] == t[q];
      }
      forall x | x in LiveKeys(t) - {k} ensures x in LiveKeys(t') {
        var q :| 0 <= q < |t| && t[q].Full? && t[q].key == x;
        assert t'[q] == t[q];
      }
    }
    forall x ensures Lookup(Contents(t'), x) == Lookup(Contents(t) - {k}, x) {
      if x in LiveKeys(t') {
        var q :| 0 <= q < |t'| && t'[q].Full? && t'[q].key == x;
        assert t'[q] == t[q];
      }
    }
    LookupExt(Contents(t'), Contents(t) - {k});
  }

  /** `createTable()`: `capacity` null slots. */
  method CreateTable<V>(capacity: int, hs: Hasher) returns (t: Slots<V>)
    requires ValidHasher(hs) && 1 <= capacity
    ensures Valid(t, hs) && |t| == capacity && Contents(t) == map[]
    ensures forall i :: 0 <= i < |t| ==> t[i] == Empty
  {
    t := seq(capacity, _ => Empty);
    LiveFacts(t);
  }

  /** `findSlot(h, k)`: probes from `h` until a null slot, a live entry with
      key `k`, or a full turn. A hit returns its slot; otherwise `-(j + 1)`
      for the first available slot `j` on the way, where a put would store
      `k`. On a table with every slot live and no `k`, the result is 0, which
      reads as a hit at slot 0. */
  method FindSlot<V>(t: Slots<V>, hs: Hasher, h: int, k: int) returns (r: int)
    requires Valid(t, hs) && h == HashValue(hs, k, |t|)
    ensures k in Contents(t) ==> 0 <= r < |t| && t[r].Full? && t[r].key == k
    ensures k !in Contents(t) && !AllFull(t) ==> FirstFree(t, h, r)
    ensures k !in Contents(t) && AllFull(t) ==> r == 0
  {
    var cap := |t|;
    var j := h;
    var ret := 0;
    var s := 0;
    while true
      invariant 0 <= s < cap && j == Step(h, s, cap)
      invariant Probed(t, h, k, s, ret)
      decreases cap - s
    {
      ghost var ret0 := ret;
      if IsAvailable(t, j) {
        if ret == 0 {
          ret := -(j + 1);
        }
        ProbeMark(t, h, k, s, ret0, ret);
        if t[j] == Empty {
          NotFound(t, hs, h, k, s);
          return ret;
        }
      } else if t[j].key == k {
        LiveFacts(t);
        return j;
      }
      ProbeStep(t, h, k, s, ret0, ret);
      StepNext(h, s, cap);
      j := (j + 1) % cap;
      s := s + 1;
      if j == h {
        NotFound(t, hs, h, k, s);
        if ret == 0 {
          FullTurn(t, h);
        }
        return ret;
      }
    }
  }

  /** What a probe from `h` has seen after `s` slots: no null and no `k`,
      and in `ret` the first available slot (as `-(slot + 1)`), or 0 while
      every slot passed was live. */
  predicate Probed<V>(t: Slots<V>, h: int, k: int, s: int, ret: int)
    requires 0 <= h < |t| && 0 <= s <= |t|
  {
    && (forall i :: 0 <= i < s ==> t[Step(h, i, |t|)] != Empty)
    && (forall i :: 0 <= i < s && t[Step(h, i, |t|)].Full? ==> t[Step(h, i, |t|)].key != k)
    && (ret == 0 <==> forall i :: 0 <= i < s ==> t[Step(h, i, |t|)].Full?)
    && (ret != 0 ==> FirstFree(t, h, ret) && Dist(h, -(ret + 1), |t|) < s)
  }

  /** `r` encodes as `-(j + 1)` an available slot `j` such that every slot
      the probe from `h` passes before `j` is live. */
  predicate FirstFree<V>(t: Slots<V>, h: int, r: int)
    requires 0 <= h < |t|
  {
    r < 0 && -(r + 1) < |t| && IsAvailable(t, -(r + 1))
    && forall i :: 0 <= i < Dist(h, -(r + 1), |t|) ==> t[Step(h, i, |t|)].Full?
  }

  /** Passing one more slot that is neither null nor `k` extends what the
      probe has seen, recording the slot when it is the first available. */
  lemma ProbeStep<V>(t: Slots<V>, h: int, k: int, s: int, ret: int, ret': int)
    requires 0 <= h < |t| && 0 <= s < |t| && Probed(t, h, k, s, ret)
    requires t[Step(h, s, |t|)] != Empty
    requires t[Step(h, s, |t|)].Full? ==> t[Step(h, s, |t|)].key != k
    requires var j := Step(h, s, |t|); ret' == if ret == 0 && IsAvailable(t, j) then -(j + 1) else ret
    ensures Probed(t, h, k, s + 1, ret')
  {
    ProbeMark(t, h, k, s, ret, ret');
  }

  /** Reaching an available slot while every slot passed was live records
      it as the first available one. */
  lemma ProbeMark<V>(t: Slots<V>, h: int, k: int, s: int, ret: int, ret': int)
    requires 0 <= h < |t| && 0 <= s < |t| && Probed(t, h, k, s, ret)
    requires var j := Step(h, s, |t|); ret' == if ret == 0 && IsAvailable(t, j) then -(j + 1) else ret
    ensures ret' != 0 ==> FirstFree(t, h, ret') && Dist(h, -(ret' + 1), |t|) <= s
    ensures ret' == 0 <==> ret == 0 && t[Step(h, s, |t|)].Full?
  {
    var j := Step(h, s, |t|);
    if ret == 0 && IsAvailable(t, j) {
      assert Dist(h, j, |t|) == s by {
        StepInjective(h, Dist(h, j, |t|), s, |t|);
      }
    }
  }


  /** A probe from `k`'s hash slot that has passed `s` slots without a null
      or a match, and stops at a null slot or after a full turn, proves `k`
      absent. */
  lemma NotFound<V>(t: Slots<V>, hs: Hasher, h: int, k: int, s: int)
    requires Valid(t, hs) && h == HashValue(hs, k, |t|) && 0 <= s <= |t|
    requires forall i :: 0 <= i < s ==> t[Step(h, i, |t|)] != Empty
    requires forall i :: 0 <= i < s && t[Step(h, i, |t|)].Full? ==> t[Step(h, i, |t|)].key != k
    requires s == |t| || t[Step(h, s, |t|)] == Empty
    ensures k !in Contents(t)
  {
    LiveFacts(t);
    forall p | 0 <= p < |t| && t[p].Full? ensures t[p].key != k {
      var d := Dist(h, p, |t|);
      if d < s {
        assert t[Step(h, d, |t|)].Full?;
      } else {
        assert RunClear(t, hs, p);
        assert t[Step(h, s, |t|)] == Empty;
        assert HashValue(hs, t[p].key, |t|) != h;
      }
    }
    assert k !in LiveKeys(t);
  }

  /** A turn that met only live slots shows the table full. */
  lemma FullTurn<V>(t: Slots<V>, h: int)
    requires 0 <= h < |t|
    requires forall i :: 0 <= i < |t| ==> t[Step(h, i, |t|)].Full?
    ensures AllFull(t)
  {
    forall p | 0 <= p < |t| ensures t[p].Full? {
      assert Step(h, Dist(h, p, |t|), |t|) == p;
    }
  }

  /** Changing the value of a live entry keeps the table valid. */
  lemma SetValueValid<V>(t: Slots<V>, hs: Hasher, p: int, v: V)
    requires Valid(t, hs) && 0 <= p < |t| && t[p].Full?
    ensures Valid(t[p := Full(t[p].key, v)], hs)
    ensures Contents(t[p := Full(t[p].key, v)]) == Contents(t)[t[p].key := v]
  {
    var t' := t[p := Full(t[p].key, v)];
    StoreSlot(t, p, t[p].key, v);
    forall q | 0 <= q < |t'| && t'[q].Full? ensures RunClear(t', hs, q) {
      assert RunClear(t, hs, q);
    }
  }

  /** Storing a new key in the first available slot of its probe run keeps
      the table valid. */
  lemma StoreValid<V>(t: Slots<V>, hs: Hasher, j: int, k: int, v: V)
    requires Valid(t, hs) && 0 <= j < |t| && IsAvailable(t, j) && k !in Contents(t)
    requires var h := HashValue(hs, k, |t|);
             forall i :: 0 <= i < Dist(h, j, |t|) ==> t[Step(h, i, |t|)].Full?
    ensures Valid(t[j := Full(k, v)], hs)
    ensures Contents(t[j := Full(k, v)]) == Contents(t)[k := v]
  {
    var t' := t[j := Full(k, v)];
    StoreSlot(t, j, k, v);
    forall q | 0 <= q < |t'| && t'[q].Full? ensures RunClear(t', hs, q) {
      if q != j {
        assert RunClear(t, hs, q);
      }
    }
  }

  /** Replacing a live entry by DEFUNCT keeps the table valid. */
  lemma ClearValid<V>(t: Slots<V>, hs: Hasher, p: int)
    requires Valid(t, hs) && 0 <= p < |t| && t[p].Full?
    ensures Valid(t[p := Defunct], hs)
    ensures Contents(t[p := Defunct]) == Contents(t) - {t[p].key}
  {
    var t' := t[p := Defunct];
    ClearSlot(t, p);
    forall q | 0 <= q < |t'| && t'[q].Full? ensures RunClear(t', hs, q) {
      assert RunClear(t, hs, q);
    }
  }

  /** `bucketGet(h, k)`: the value of `k`, or null. On a table with every
      slot live and no `k`, the value of slot 0 comes back. */
  method BucketGet<V>(t: Slots<V>, hs: Hasher, h: int, k: int) returns (r: Option<V>)
    requires Valid(t, hs) && h == HashValue(hs, k, |t|)
    ensures !(AllFull(t) && k !in Contents(t)) ==> r == Lookup(Contents(t), k)
    ensures AllFull(t) && k !in Contents(t) ==> r == Some(t[0].value)
  {
    var i := FindSlot(t, hs, h, k);
    if i < 0 {
      return None;
    }
    LiveFacts(t);
    return Some(t[i].value);
  }

  /** `bucketPut(h, k, v)`: a hit has its value replaced and the old value
      returned; otherwise the entry goes into the first available slot of the
      probe run, `n` grows and null comes back. On a table with every slot
      live and no `k`, the value of slot 0 is overwritten instead, under that
      slot's own key. */
  method BucketPut<V>(t: Slots<V>, n: int, hs: Hasher, h: int, k: int, v: V) returns (t': Slots<V>, n': int, r: Option<V>)
    requires Valid(t, hs) && h == HashValue(hs, k, |t|)
    ensures Valid(t', hs) && |t'| == |t|
    ensures !(AllFull(t) && k !in Contents(t)) ==>
              && Contents(t') == Contents(t)[k := v]
              && r == Lookup(Contents(t), k)
              && n' == if k in Contents(t) then n else n + 1
    ensures AllFull(t) && k !in Contents(t) ==>
              && Contents(t') == Contents(t)[t[0].key := v]
              && r == Some(t[0].value) && n' == n
    ensures k !in Contents(t) && IsAvailable(t, h) ==> t' == t[h := Full(k, v)]
  {
    var i := FindSlot(t, hs, h, k);
    LiveFacts(t);
    if i >= 0 {
      SetValueValid(t, hs, i, v);
      return t[i := Full(t[i].key, v)], n, Some(t[i].value);
    }
    if k !in Contents(t) && IsAvailable(t, h) {
      assert Step(h, 0, |t|) == h;
    }
    StoreValid(t, hs, -(i + 1), k, v);
    return t[-(i + 1) := Full(k, v)], n + 1, None;
  }

  /** `bucketRemove(h, k)`: a hit is replaced by DEFUNCT, `n` shrinks and the
      old value comes back; otherwise null. On a table with every slot live
      and no `k`, slot 0 is removed instead. */
  method BucketRemove<V>(t: Slots<V>, n: int, hs: Hasher, h: int, k: int) returns (t': Slots<V>, n': int, r: Option<V>)
    requires Valid(t, hs) && h == HashValue(hs, k, |t|)
    ensures Valid(t', hs) && |t'| == |t|
    ensures !(AllFull(t) && k !in Contents(t)) ==>
              && Contents(t') == Contents(t) - {k}
              && r == Lookup(Contents(t), k)
              && n' == if k in Contents(t) then n - 1 else n
    ensures AllFull(t) && k !in Contents(t) ==>
              && Contents(t') == Contents(t) - {t[0].key}
              && r == Some(t[0].value) && n' == n - 1
  {
    var i := FindSlot(t, hs, h, k);
    LiveFacts(t);
    if i < 0 {
      assert Contents(t) - {k} == Contents(t);
      return t, n, None;
    }
    ClearValid(t, hs, i);
    return t[i := Defunct], n - 1, Some(t[i].value);
  }

  /** The live entries of the first `m` slots extend those of fewer. */
  lemma LivePrefix<V>(t: Slots<V>, m: int)
    requires 0 <= m < |t|
    ensures Live(t[..m + 1]) == Live(t[..m]) + (if t[m].Full? then [Entry(t[m].key, t[m].value)] else [])
  {
    assert t[..m + 1][..m] == t[..m];
  }

  /** A live slot followed by a null one lists just its entry. */
  lemma LiveThenEmpty<V>(k: int, v: V)
    ensures Live([Full(k, v), Empty]) == [Entry(k, v)]
  {
    assert [Full(k, v), Empty][..1] == [Full(k, v)];
    assert [Full(k, v)][..0] == [];
    assert Live([Full(k, v)]) == [Entry(k, v)];
  }

  /** The live entries of the first `n` slots, then those of the rest. */
  lemma {:induction false} LiveSplit<V>(t: Slots<V>, n: int)
    requires 0 <= n <= |t|
    ensures Live(t) == Live(t[..n]) + Live(t[n..])
    decreases |t|
  {
    if n == |t| {
      assert t[..n] == t && t[n..] == [];
    } else {
      var u := t[..|t| - 1];
      LiveSplit(u, n);
      assert u[..n] == t[..n];
      assert t[n..][..|t[n..]| - 1] == u[n..];
    }
  }

  /** The live entries of the first `n` slots have distinct keys and map each
      of them as the whole table does. */
  lemma ScanPrefix<V>(t: Slots<V>, n: int)
    requires DistinctLive(t) && 0 <= n <= |t|
    ensures DistinctKeys(Live(t[..n])) && Submap(AsMap(Live(t[..n])), Contents(t))
  {
    LiveFacts(t);
    LiveSplit(t, n);
    AsMapPrefix(Live(t[..n]), Live(t[n..]));
  }

  /** `entrySet()` with the scan over every slot: the live entries in slot
      order. */
  method EntrySet<V>(t: Slots<V>, hs: Hasher) returns (buf: seq<Entry<V>>)
    requires Valid(t, hs)
    ensures buf == Live(t)
    ensures DistinctKeys(buf) && AsMap(buf) == Contents(t) && |buf| == |Contents(t)|
  {
    buf := [];
    var h := 0;
    while h < |t|
      invariant 0 <= h <= |t|
      invariant buf == Live(t[..h])
    {
      LivePrefix(t, h);
      if !IsAvailable(t, h) {
        buf := buf + [Entry(t[h].key, t[h].value)];
      }
      h := h + 1;
    }
    assert t[..|t|] == t;
    LiveFacts(t);
    AsMapSize(buf);
  }

  /** `entrySet()` as written: the scan stops at `size()`, the number of
      entries, rather than at the table length, so it lists only the live
      entries of the first `n` slots. */
  method EntrySetAsWritten<V>(t: Slots<V>, n: int) returns (buf: seq<Entry<V>>)
    requires 0 <= n <= |t|
    ensures buf == Live(t[..n])
  {
    buf := [];
    var h := 0;
    while h < n
      invariant 0 <= h <= n
      invariant buf == Live(t[..h])
    {
      LivePrefix(t, h);
      if !IsAvailable(t, h) {
        buf := buf + [Entry(t[h].key, t[h].value)];
      }
      h := h + 1;
    }
  }

  /** A two-slot table whose one entry sits in slot 1: the written scan of
      one slot misses it. */
  lemma EntrySetMissesEntry()
    ensures var t: Slots<int> := [Empty, Full(1, 7)];
            && Valid(t, Hasher(PRIME, 1, 0)) && |Contents(t)| == 1
            && Live(t[..1]) == [] && 1 in Contents(t)
  {
    var t: Slots<int> := [Empty, Full(1, 7)];
    assert HashValue(Hasher(PRIME, 1, 0), 1, 2) == 1;
    assert t[..1] == [Empty];
    assert t[..|t| - 1] == [Empty];
    assert Live(t) == [Entry(1, 7)];
  }
}
