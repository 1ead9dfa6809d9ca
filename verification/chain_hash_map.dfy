/** map/ChainHashMap.java: separate chaining. Bucket `h` is null until a key
    hashing to `h` is first put, and then an `UnsortedTableMap`. */
module ChainHashMap {
  import opened Common
  import opened Entries
  import opened HashCommon
  import UnsortedTableMap

  /** The bucket array `table`. */
  type Buckets<V> = seq<Option<seq<Entry<V>>>>

  /** The entries of bucket `h`; an unallocated bucket has none. */
  function Bucket<V>(b: Buckets<V>, h: int): seq<Entry<V>>
    requires 0 <= h < |b|
  {
    if b[h].Some? then b[h].value else []
  }

  /** Every key sits in the bucket it hashes to, for a table of `cap` buckets. */
  predicate Homed<V>(b: Buckets<V>, hs: Hasher, cap: int) {
    && ValidHasher(hs) && 1 <= cap
    && forall h, i :: 0 <= h < |b| && b[h].Some? && 0 <= i < |b[h].value| ==>
                        HashValue(hs, b[h].value[i].key, cap) == h
  }

  /** The table invariant: keys sit in their home buckets, and no bucket holds
      a key twice. */
  predicate Valid<V>(b: Buckets<V>, hs: Hasher) {
    && 1 <= |b|
    && Homed(b, hs, |b|)
    && forall h :: 0 <= h < |b| && b[h].Some? ==> UnsortedTableMap.Valid(b[h].value)
  }

  /** The buckets' entries in bucket order, each bucket in its own order. */
  function Flat<V>(b: Buckets<V>): seq<Entry<V>>
    decreases |b|
  {
    if b == [] then [] else Flat(b[..|b| - 1]) + Bucket(b, |b| - 1)
  }

  /** The map the table stands for. */
  function Contents<V>(b: Buckets<V>): map<int, V> {
    AsMap(Flat(b))
  }

  /** Every key listed in the first `|b|` buckets hashes below `|b|`. */
  lemma {:induction false} FlatHomes<V>(b: Buckets<V>, hs: Hasher, cap: int)
    requires Homed(b, hs, cap)
    ensures forall k :: k in KeysOf(Flat(b)) ==> HashValue(hs, k, cap) < |b|
  {
    if b != [] {
      var p := b[..|b| - 1];
      var last := Bucket(b, |b| - 1);
      assert Homed(p, hs, cap);
      FlatHomes(p, hs, cap);
      assert Flat(b) == Flat(p) + last;
      forall k | k in KeysOf(Flat(b)) ensures HashValue(hs, k, cap) < |b| {
        var i :| 0 <= i < |Flat(b)| && Flat(b)[i].key == k;
        if i < |Flat(p)| {
          assert Flat(p)[i].key in KeysOf(Flat(p));
        } else {
          var j := i - |Flat(p)|;
          assert last[j].key == k && b[|b| - 1].Some?;
          assert b[|b| - 1].value[j].key == k;
        }
      }
    }
  }

  /** Looking a key up in the whole table is looking it up in its home
      bucket; and no key is listed twice. */
  lemma {:induction false} FlatLookup<V>(b: Buckets<V>, hs: Hasher, cap: int, k: int)
    requires Homed(b, hs, cap)
    requires forall h :: 0 <= h < |b| && b[h].Some? ==> UnsortedTableMap.Valid(b[h].value)
    ensures DistinctKeys(Flat(b))
    ensures HashValue(hs, k, cap) < |b| ==> Lookup(AsMap(Flat(b)), k) == Lookup(AsMap(Bucket(b, HashValue(hs, k, cap))), k)
    ensures HashValue(hs, k, cap) >= |b| ==> k !in AsMap(Flat(b))
  {
    if b == [] {
      return;
    }
    var p := b[..|b| - 1];
    var last := Bucket(b, |b| - 1);
    assert Homed(p, hs, cap);
    FlatLookup(p, hs, cap, k);
    FlatHomes(p, hs, cap);
    assert forall i :: 0 <= i < |last| ==> HashValue(hs, last[i].key, cap) == |b| - 1;
    assert KeysOf(Flat(p)) !! KeysOf(last) by {
      forall x | x in KeysOf(last) ensures x !in KeysOf(Flat(p)) {
        var i :| 0 <= i < |last| && last[i].key == x;
      }
    }
    DistinctConcat(Flat(p), last);
    AsMapConcat(Flat(p), last);
    AsMapKeys(last);
    AsMapKeys(Flat(p));
    var H := HashValue(hs, k, cap);
    if H != |b| - 1 {
      assert forall i :: 0 <= i < |last| ==> last[i].key != k;
      assert k !in KeysOf(last);
    }
    if H < |b| - 1 {
      assert Bucket(p, H) == Bucket(b, H);
    } else if H == |b| - 1 {
      assert k !in KeysOf(Flat(p));
    }
  }

  /** `createTable()`: `capacity` unallocated buckets. */
  method CreateTable<V>(capacity: int, hs: Hasher) returns (b: Buckets<V>)
    requires ValidHasher(hs) && 1 <= capacity
    ensures Valid(b, hs) && |b| == capacity && Contents(b) == map[]
  {
    b := seq(capacity, _ => None);
    FlatEmpty(b);
  }

  lemma {:induction false} FlatEmpty<V>(b: Buckets<V>)
    requires forall h :: 0 <= h < |b| ==> b[h].None?
    ensures Flat(b) == []
  {
    if b != [] {
      FlatEmpty(b[..|b| - 1]);
    }
  }

  /** `bucketGet(h, k)`: null for an unallocated bucket, else the bucket's
      `get(k)`. */
  method BucketGet<V>(b: Buckets<V>, hs: Hasher, h: int, k: int) returns (r: Option<V>)
    requires Valid(b, hs) && h == HashValue(hs, k, |b|)
    ensures r == Lookup(Contents(b), k)
  {
    FlatLookup(b, hs, |b|, k);
    if b[h].None? {
      return None;
    }
    r := UnsortedTableMap.Get(b[h].value, k);
  }

  /** Installing a bucket `t` at `h` whose keys all hash to `h` keeps the
      table valid; lookups of keys hashing to `h` now answer from `t`. */
  lemma {:induction false} Install<V>(b: Buckets<V>, hs: Hasher, h: int, t: seq<Entry<V>>)
    requires Valid(b, hs) && 0 <= h < |b| && UnsortedTableMap.Valid(t)
    requires forall i :: 0 <= i < |t| ==> HashValue(hs, t[i].key, |b|) == h
    ensures Valid(b[h := Some(t)], hs)
    ensures forall x :: Lookup(Contents(b[h := Some(t)]), x) ==
                        if HashValue(hs, x, |b|) == h then Lookup(AsMap(t), x) else Lookup(Contents(b), x)
  {
    var b' := b[h := Some(t)];
    assert Valid(b', hs);
    forall x ensures Lookup(Contents(b'), x) ==
                     if HashValue(hs, x, |b|) == h then Lookup(AsMap(t), x) else Lookup(Contents(b), x) {
      FlatLookup(b, hs, |b|, x);
      FlatLookup(b', hs, |b|, x);
    }
  }

  /** The keys of a bucket after a put of `k` into it hash where `k` does. */
  lemma KeysStayHome<V>(hs: Hasher, cap: int, h: int, bucket: seq<Entry<V>>, t: seq<Entry<V>>, k: int)
    requires ValidHasher(hs) && 1 <= cap
    requires forall i :: 0 <= i < |bucket| ==> HashValue(hs, bucket[i].key, cap) == h
    requires HashValue(hs, k, cap) == h
    requires AsMap(t).Keys <= AsMap(bucket).Keys + {k}
    ensures forall i :: 0 <= i < |t| ==> HashValue(hs, t[i].key, cap) == h
  {
    AsMapKeys(t);
    AsMapKeys(bucket);
    forall i | 0 <= i < |t| ensures HashValue(hs, t[i].key, cap) == h {
      assert t[i].key in KeysOf(t);
      if t[i].key != k {
        var j :| 0 <= j < |bucket| && bucket[j].key == t[i].key;
      }
    }
  }

  /** `bucketPut(h, k, v)`: allocates the bucket if needed, puts into it, and
      adds the bucket's growth to `n`. */
  method BucketPut<V>(b: Buckets<V>, n: int, hs: Hasher, h: int, k: int, v: V) returns (b': Buckets<V>, n': int, r: Option<V>)
    requires Valid(b, hs) && h == HashValue(hs, k, |b|)
    ensures Valid(b', hs) && |b'| == |b|
    ensures Contents(b') == Contents(b)[k := v]
    ensures r == Lookup(Contents(b), k)
    ensures n' == if k in Contents(b) then n else n + 1
  {
    var bucket := Bucket(b, h);
    var t', ret := UnsortedTableMap.Put(bucket, k, v);
    b' := b[h := Some(t')];
    n' := n + (|t'| - |bucket|);
    r := ret;
    FlatLookup(b, hs, |b|, k);
    KeysStayHome(hs, |b|, h, bucket, t', k);
    Install(b, hs, h, t');
    PutLookups(b, b', hs, h, t', k, v);
  }

  /** When the table answers lookups of keys hashing to `h` from `t`, and `t`
      is `k`'s home bucket with `k -> v` put in, the table is the old one with
      `k -> v` put in. */
  lemma PutLookups<V>(b: Buckets<V>, b': Buckets<V>, hs: Hasher, h: int, t: seq<Entry<V>>, k: int, v: V)
    requires Valid(b, hs) && h == HashValue(hs, k, |b|)
    requires forall x :: Lookup(Contents(b'), x) ==
                        if HashValue(hs, x, |b|) == h then Lookup(AsMap(t), x) else Lookup(Contents(b), x)
    requires AsMap(t) == AsMap(Bucket(b, h))[k := v]
    ensures Contents(b') == Contents(b)[k := v]
  {
    forall x ensures Lookup(Contents(b'), x) == Lookup(Contents(b)[k := v], x) {
      FlatLookup(b, hs, |b|, x);
    }
    LookupExt(Contents(b'), Contents(b)[k := v]);
  }

  /** `bucketRemove(h, k)`: null for an unallocated bucket, else the bucket's
      `remove(k)`, with `n` reduced by the bucket's shrinkage. */
  method BucketRemove<V>(b: Buckets<V>, n: int, hs: Hasher, h: int, k: int) returns (b': Buckets<V>, n': int, r: Option<V>)
    requires Valid(b, hs) && h == HashValue(hs, k, |b|)
    ensures Valid(b', hs) && |b'| == |b|
    ensures Contents(b') == Contents(b) - {k}
    ensures r == Lookup(Contents(b), k)
    ensures n' == if k in Contents(b) then n - 1 else n
  {
    FlatLookup(b, hs, |b|, k);
    if b[h].None? {
      assert Contents(b) - {k} == Contents(b);
      return b, n, None;
    }
    var bucket := b[h].value;
    var t', ret := UnsortedTableMap.Remove(bucket, k);
    b' := b[h := Some(t')];
    n' := n - (|bucket| - |t'|);
    r := ret;
    KeysStayHome(hs, |b|, h, bucket, t', k);
    Install(b, hs, h, t');
    RemoveLookups(b, b', hs, h, t', k);
  }

  /** When the table answers lookups of keys hashing to `h` from `t`, and `t`
      is `k`'s home bucket with `k` removed, the table is the old one with `k`
      removed. */
  lemma RemoveLookups<V>(b: Buckets<V>, b': Buckets<V>, hs: Hasher, h: int, t: seq<Entry<V>>, k: int)
    requires Valid(b, hs) && h == HashValue(hs, k, |b|)
    requires forall x :: Lookup(Contents(b'), x) ==
                        if HashValue(hs, x, |b|) == h then Lookup(AsMap(t), x) else Lookup(Contents(b), x)
    requires AsMap(t) == AsMap(Bucket(b, h)) - {k}
    ensures Contents(b') == Contents(b) - {k}
  {
    forall x ensures Lookup(Contents(b'), x) == Lookup(Contents(b) - {k}, x) {
      FlatLookup(b, hs, |b|, x);
    }
    LookupExt(Contents(b'), Contents(b) - {k});
  }

  /** `entrySet()`: the entries of buckets `0 .. capacity - 1` in index order,
      each bucket in insertion order; every entry of the map once. */
  method EntrySet<V>(b: Buckets<V>, hs: Hasher) returns (buf: seq<Entry<V>>)
    requires Valid(b, hs)
    ensures buf == Flat(b)
    ensures DistinctKeys(buf) && AsMap(buf) == Contents(b) && |buf| == |Contents(b)|
  {
    buf := [];
    var h := 0;
    while h < |b|
      invariant 0 <= h <= |b|
      invariant buf == Flat(b[..h])
    {
      if b[h].Some? {
        buf := buf + b[h].value;
      }
      assert b[..h + 1][..h] == b[..h];
      h := h + 1;
    }
    assert b[..|b|] == b;
    FlatLookup(b, hs, |b|, 0);
    AsMapSize(buf);
  }
}
