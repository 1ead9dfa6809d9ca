/** map/AbstractHashMap.java: the map operations shared by the two hash
    tables. They hash the key, delegate to the table's bucket operation, and
    keep the load factor `n / capacity` at most one half by resizing to
    `2 * capacity - 1` and re-putting every entry. */
module AbstractHashMap {
  import opened Common
  import opened Entries
  import opened HashCommon
  import Probe = LinearProbeHashMap
  import Chain = ChainHashMap

  /** The table of the concrete subclass; `createTable()` and the bucket
      operations dispatch on it. */
  datatype Table<V> = Probing(slots: Probe.Slots<V>) | Chaining(buckets: Chain.Buckets<V>)

  /** The fields `table`, `n`, `capacity` and the hash factors. */
  datatype HashMap<V> = HashMap(table: Table<V>, n: int, capacity: int, hs: Hasher)

  function Length<V>(t: Table<V>): int {
    match t
    case Probing(s) => |s|
    case Chaining(b) => |b|
  }

  predicate TableValid<V>(t: Table<V>, hs: Hasher) {
    match t
    case Probing(s) => Probe.Valid(s, hs)
    case Chaining(b) => Chain.Valid(b, hs)
  }

  /** The map a table stands for. */
  function TableContents<V>(t: Table<V>): map<int, V> {
    match t
    case Probing(s) => Probe.Contents(s)
    case Chaining(b) => Chain.Contents(b)
  }

  /** The fields agree with the table, and the load factor is at most one
      half. */
  predicate Valid<V>(m: HashMap<V>) {
    && ValidHasher(m.hs) && 2 <= m.capacity
    && Length(m.table) == m.capacity
    && TableValid(m.table, m.hs)
    && m.n == |TableContents(m.table)|
    && m.n <= m.capacity / 2
  }

  /** The map `m` stands for. */
  function Contents<V>(m: HashMap<V>): map<int, V> {
    TableContents(m.table)
  }

  /** A probing table at most half full has an available slot. */
  lemma NotFull<V>(m: HashMap<V>)
    requires Valid(m) && m.table.Probing?
    ensures !Probe.AllFull(m.table.slots)
  {
    Probe.LiveFacts(m.table.slots);
    AsMapSize(Probe.Live(m.table.slots));
  }

  /** `createTable()` of the table's own kind, with `capacity` slots. */
  method CreateTable<V>(like: Table<V>, capacity: int, hs: Hasher) returns (t: Table<V>)
    requires ValidHasher(hs) && 1 <= capacity
    ensures TableValid(t, hs) && Length(t) == capacity && TableContents(t) == map[]
    ensures t.Probing? <==> like.Probing?
    ensures t.Probing? ==> forall i :: 0 <= i < |t.slots| ==> t.slots[i] == Probe.Empty
  {
    match like
    case Probing(_) =>
      var s := Probe.CreateTable(capacity, hs);
      t := Probing(s);
    case Chaining(_) =>
      var b := Chain.CreateTable(capacity, hs);
      t := Chaining(b);
  }

  /** `AbstractHashMap(cap, p)` for either subclass: an empty table of
      `capacity` buckets; `hs` holds the factors drawn at random. */
  method New<V>(probing: bool, capacity: int, hs: Hasher) returns (m: HashMap<V>)
    requires ValidHasher(hs) && 2 <= capacity
    ensures Valid(m) && Contents(m) == map[] && m.capacity == capacity && m.hs == hs
    ensures m.table.Probing? <==> probing
    ensures m.table.Probing? ==> forall i :: 0 <= i < |m.table.slots| ==> m.table.slots[i] == Probe.Empty
  {
    var like: Table<V> := if probing then Probing([]) else Chaining([]);
    var t := CreateTable(like, capacity, hs);
    m := HashMap(t, 0, capacity, hs);
  }

  /** `AbstractHashMap()`: the default capacity 17 and prime 109345121. */
  method NewDefault<V>(probing: bool, scale: int, shift: int) returns (m: HashMap<V>)
    requires 1 <= scale <= PRIME - 1 && 0 <= shift <= PRIME - 1
    ensures Valid(m) && Contents(m) == map[] && m.capacity == CAPACITY && m.hs.prime == PRIME
  {
    m := New(probing, CAPACITY, Hasher(PRIME, scale, shift));
  }

  /** `size()`: `n`, the number of keys. */
  function Size<V>(m: HashMap<V>): (n: int)
    requires Valid(m)
    ensures n == |Contents(m)|
  {
    m.n
  }

  /** `bucketGet` of the table. */
  method TableGet<V>(m: HashMap<V>, k: int) returns (r: Option<V>)
    requires Valid(m)
    ensures r == Lookup(Contents(m), k)
  {
    var h := HashValue(m.hs, k, m.capacity);
    match m.table
    case Probing(s) =>
      NotFull(m);
      r := Probe.BucketGet(s, m.hs, h, k);
    case Chaining(b) =>
      r := Chain.BucketGet(b, m.hs, h, k);
  }

  /** `get(key)`: the value of `key`, or null. */
  method Get<V>(m: HashMap<V>, key: int) returns (r: Option<V>)
    requires Valid(m)
    ensures key in Contents(m) ==> r == Some(Contents(m)[key])
    ensures key !in Contents(m) ==> r == None
  {
    r := TableGet(m, key);
  }

  /** `containsKey(key)`: `bucketGet` returned a value. */
  method ContainsKey<V>(m: HashMap<V>, key: int) returns (b: bool)
    requires Valid(m)
    ensures b <==> key in Contents(m)
  {
    var r := TableGet(m, key);
    return r != None;
  }

  /** `entrySet()` of the table, with the scan over every slot. */
  method TableEntrySet<V>(t: Table<V>, hs: Hasher) returns (buf: seq<Entry<V>>)
    requires TableValid(t, hs)
    ensures DistinctKeys(buf) && AsMap(buf) == TableContents(t) && |buf| == |TableContents(t)|
  {
    match t
    case Probing(s) =>
      buf := Probe.EntrySet(s, hs);
    case Chaining(b) =>
      buf := Chain.EntrySet(b, hs);
  }

  /** `entrySet()` of the table as written: the probing scan stops after the
      first `n` slots, so it lists a part of the map; the chaining scan
      covers every bucket. */
  method TableEntrySetAsWritten<V>(t: Table<V>, hs: Hasher, n: int) returns (buf: seq<Entry<V>>)
    requires TableValid(t, hs) && (t.Probing? ==> 0 <= n <= Length(t))
    ensures DistinctKeys(buf) && Submap(AsMap(buf), TableContents(t))
    ensures t.Probing? ==> buf == Probe.Live(t.slots[..n])
    ensures t.Chaining? ==> AsMap(buf) == TableContents(t)
  {
    match t
    case Probing(s) =>
      buf := Probe.EntrySetAsWritten(s, n);
      Probe.ScanPrefix(s, n);
    case Chaining(b) =>
      buf := Chain.EntrySet(b, hs);
  }

  /** A new key whose home slot in a probing table is available: `bucketPut`
      stores it in that slot. */
  predicate LandsHome<V>(m: HashMap<V>, k: int)
    requires Valid(m)
  {
    m.table.Probing? && k !in Contents(m) && Probe.IsAvailable(m.table.slots, HashValue(m.hs, k, m.capacity))
  }

  /** `bucketPut` of the table: the map gains `k`, and `n` grows when `k` is
      new. The load factor may now exceed one half. */
  method TablePut<V>(m: HashMap<V>, k: int, v: V) returns (m': HashMap<V>, r: Option<V>)
    requires Valid(m)
    ensures TableValid(m'.table, m'.hs) && m'.capacity == m.capacity && m'.hs == m.hs
    ensures Length(m'.table) == m.capacity && (m'.table.Probing? <==> m.table.Probing?)
    ensures Contents(m') == Contents(m)[k := v] && m'.n == |Contents(m')|
    ensures r == Lookup(Contents(m), k)
    ensures LandsHome(m, k) ==> m'.table == Probing(m.table.slots[HashValue(m.hs, k, m.capacity) := Probe.Full(k, v)])
  {
    var h := HashValue(m.hs, k, m.capacity);
    match m.table
    case Probing(s) =>
      NotFull(m);
      var s', n', ret := Probe.BucketPut(s, m.n, m.hs, h, k, v);
      m', r := HashMap(Probing(s'), n', m.capacity, m.hs), ret;
    case Chaining(b) =>
      var b', n', ret := Chain.BucketPut(b, m.n, m.hs, h, k, v);
      m', r := HashMap(Chaining(b'), n', m.capacity, m.hs), ret;
  }

  /** `put(key, value)` within a bound on the keys: `bound` is a ghost upper
      limit on the number of keys the map will hold, which caps how far the
      capacity can grow and so orders the calls between `put` and `resize`. */
  method PutWithin<V>(m: HashMap<V>, key: int, value: V, ghost bound: int) returns (m': HashMap<V>, r: Option<V>)
    requires Valid(m) && m.capacity <= 4 * bound
    requires key in Contents(m) || m.n < bound
    ensures Valid(m') && m'.hs == m.hs && (m'.table.Probing? <==> m.table.Probing?)
    ensures Contents(m') == Contents(m)[key := value]
    ensures r == Lookup(Contents(m), key)
    ensures m.capacity <= m'.capacity <= 4 * bound
    decreases 4 * bound - m.capacity, 0
  {
    var cur, ret := TablePut(m, key, value);
    if cur.n > cur.capacity / 2 {
      m' := Resize(cur, 2 * cur.capacity - 1, bound);
    } else {
      m' := cur;
    }
    r := ret;
  }

  /** `resize(newCap)`: lists the entries, installs an empty table of
      `newCap` buckets with `n = 0`, and puts every entry back; a put may
      resize again. */
  method Resize<V>(m: HashMap<V>, newCap: int, ghost bound: int) returns (m': HashMap<V>)
    requires ValidHasher(m.hs) && TableValid(m.table, m.hs) && m.n == |TableContents(m.table)|
    requires 2 <= newCap <= 4 * bound - 3 && m.n <= bound
    ensures Valid(m') && m'.hs == m.hs && (m'.table.Probing? <==> m.table.Probing?)
    ensures Contents(m') == Contents(m)
    ensures newCap <= m'.capacity <= 4 * bound
    decreases 4 * bound - newCap, 1
  {
    var buffer := TableEntrySet(m.table, m.hs);
    var newTable := CreateTable(m.table, newCap, m.hs);
    var cur := HashMap(newTable, 0, newCap, m.hs);
    var i := 0;
    while i < |buffer|
      invariant 0 <= i <= |buffer|
      invariant Valid(cur) && cur.hs == m.hs && (cur.table.Probing? <==> m.table.Probing?)
      invariant newCap <= cur.capacity <= 4 * bound
      invariant Contents(cur) == AsMap(buffer[..i])
    {
      assert buffer[..i + 1][..i] == buffer[..i];
      AsMapSize(buffer[..i]);
      var previous;
      cur, previous := PutWithin(cur, buffer[i].key, buffer[i].value, bound);
      i := i + 1;
    }
    assert buffer[..i] == buffer;
    m' := cur;
  }

  /** `put(key, value)`: stores the value, returns the old one or null, and
      resizes to `2 * capacity - 1` when the load factor passes one half. */
  method Put<V>(m: HashMap<V>, key: int, value: V) returns (m': HashMap<V>, r: Option<V>)
    requires Valid(m)
    ensures Valid(m') && m'.hs == m.hs && (m'.table.Probing? <==> m.table.Probing?)
    ensures Contents(m') == Contents(m)[key := value]
    ensures r == Lookup(Contents(m), key)
    ensures m'.capacity >= m.capacity
  {
    m', r := PutWithin(m, key, value, m.capacity);
  }

  /** `put(key, value)` as written, within a bound on the keys (see
      `PutWithin`). Without a resize the map gains the key exactly; a resize
      lists entries with the written scan, so the result may lack keys. A
      new key that lands in its home slot and triggers a resize leaves only
      the entries of the first `n` slots of the filled table. */
  method PutWithinAsWritten<V>(m: HashMap<V>, key: int, value: V, ghost bound: int) returns (m': HashMap<V>, r: Option<V>)
    requires Valid(m) && m.capacity <= 4 * bound
    requires key in Contents(m) || m.n < bound
    ensures Valid(m') && m'.hs == m.hs && (m'.table.Probing? <==> m.table.Probing?)
    ensures r == Lookup(Contents(m), key)
    ensures m.capacity <= m'.capacity <= 4 * bound
    ensures Submap(Contents(m'), Contents(m)[key := value])
    ensures m.table.Chaining? ==> Contents(m') == Contents(m)[key := value]
    ensures |Contents(m)[key := value]| <= m.capacity / 2 ==>
              m'.capacity == m.capacity && Contents(m') == Contents(m)[key := value]
    ensures LandsHome(m, key) && |Contents(m)[key := value]| <= m.capacity / 2 ==>
              m'.table == Probing(m.table.slots[HashValue(m.hs, key, m.capacity) := Probe.Full(key, value)])
    ensures LandsHome(m, key) && |Contents(m)[key := value]| > m.capacity / 2 ==>
              Submap(Contents(m'), AsMap(Probe.Live(m.table.slots[HashValue(m.hs, key, m.capacity) := Probe.Full(key, value)][..m.n + 1])))
    decreases 4 * bound - m.capacity, 0
  {
    var cur, ret := TablePut(m, key, value);
    if cur.n > cur.capacity / 2 {
      m' := ResizeAsWritten(cur, 2 * cur.capacity - 1, bound);
    } else {
      m' := cur;
    }
    r := ret;
  }

  /** `resize(newCap)` as written: the entries come from the written
      `entrySet()`, so a probing table keeps only the entries of its first
      `n` slots, all of them when they fit without a further resize; a
      chaining table keeps every entry. */
  method ResizeAsWritten<V>(m: HashMap<V>, newCap: int, ghost bound: int) returns (m': HashMap<V>)
    requires ValidHasher(m.hs) && TableValid(m.table, m.hs) && m.n == |TableContents(m.table)|
    requires 2 <= newCap <= 4 * bound - 3 && m.n <= bound
    ensures Valid(m') && m'.hs == m.hs && (m'.table.Probing? <==> m.table.Probing?)
    ensures newCap <= m'.capacity <= 4 * bound
    ensures Submap(Contents(m'), Contents(m))
    ensures m.table.Chaining? ==> Contents(m') == Contents(m)
    ensures m.table.Probing? ==> m.n <= Length(m.table)
    ensures m.table.Probing? ==> Submap(Contents(m'), AsMap(Probe.Live(m.table.slots[..m.n])))
    ensures m.table.Probing? && |Probe.Live(m.table.slots[..m.n])| <= newCap / 2 ==>
              Contents(m') == AsMap(Probe.Live(m.table.slots[..m.n]))
    decreases 4 * bound - newCap, 3
  {
    if m.table.Probing? {
      Probe.LiveFacts(m.table.slots);
      AsMapSize(Probe.Live(m.table.slots));
    }
    var buffer := TableEntrySetAsWritten(m.table, m.hs, m.n);
    AsMapSize(buffer);
    SubmapSize(AsMap(buffer), Contents(m));
    var newTable := CreateTable(m.table, newCap, m.hs);
    var empty := HashMap(newTable, 0, newCap, m.hs);
    m' := PutAllAsWritten(empty, buffer, bound);
    forall k | k in Contents(m') ensures k in Contents(m) && Contents(m')[k] == Contents(m)[k] {
      assert k in AsMap(buffer);
    }
  }

  /** What the second loop of the written `resize` keeps after putting back
      the first `i` listed entries into the table that started as `start`. */
  ghost predicate PutAllKept<V>(start: HashMap<V>, buffer: seq<Entry<V>>, bound: int, m: HashMap<V>, i: int) {
    && 0 <= i <= |buffer|
    && Valid(m) && m.hs == start.hs && (m.table.Probing? <==> start.table.Probing?)
    && start.capacity <= m.capacity <= 4 * bound
    && Submap(Contents(m), AsMap(buffer[..i]))
    && (start.table.Chaining? ==> Contents(m) == AsMap(buffer[..i]))
    && (|buffer| <= start.capacity / 2 ==> m.capacity == start.capacity && Contents(m) == AsMap(buffer[..i]))
  }

  /** The second loop of `resize` as written: every listed entry is put back
      with the written `put`, which may resize again and then lose entries.
      Nothing is lost while the entries fit in the table without a resize,
      nor by a chaining table. */
  method PutAllAsWritten<V>(start: HashMap<V>, buffer: seq<Entry<V>>, ghost bound: int) returns (m': HashMap<V>)
    requires Valid(start) && Contents(start) == map[] && start.capacity <= 4 * bound
    requires DistinctKeys(buffer) && |buffer| <= bound
    ensures Valid(m') && m'.hs == start.hs && (m'.table.Probing? <==> start.table.Probing?)
    ensures start.capacity <= m'.capacity <= 4 * bound
    ensures Submap(Contents(m'), AsMap(buffer))
    ensures start.table.Chaining? ==> Contents(m') == AsMap(buffer)
    ensures |buffer| <= start.capacity / 2 ==> Contents(m') == AsMap(buffer)
    decreases 4 * bound - start.capacity, 2
  {
    m' := start;
    var i := 0;
    assert AsMap(buffer[..0]) == map[] by {
      assert buffer[..0] == [];
    }
    while i < |buffer|
      invariant PutAllKept(start, buffer, bound, m', i)
    {
      m' := PutOneAsWritten(start, buffer, bound, m', i);
      i := i + 1;
    }
    assert AsMap(buffer[..i]) == AsMap(buffer) by {
      assert buffer[..i] == buffer;
    }
  }

  /** One round of the loop in `PutAllAsWritten`: putting entry `i` back with
      the written `put` keeps what the loop keeps. */
  method PutOneAsWritten<V>(start: HashMap<V>, buffer: seq<Entry<V>>, ghost bound: int, m: HashMap<V>, i: int) returns (m': HashMap<V>)
    requires DistinctKeys(buffer) && |buffer| <= bound && i < |buffer|
    requires PutAllKept(start, buffer, bound, m, i)
    ensures PutAllKept(start, buffer, bound, m', i + 1)
    decreases 4 * bound - start.capacity, 1
  {
    AsMapSize(buffer[..i]);
    AsMapSize(buffer[..i + 1]);
    AsMapSnoc(buffer, i);
    SubmapSize(Contents(m), AsMap(buffer[..i]));
    var previous;
    m', previous := PutWithinAsWritten(m, buffer[i].key, buffer[i].value, bound);
    SubmapStep(Contents(m), Contents(m'), buffer, i);
  }

  /** `put(key, value)` as written: `PutWithinAsWritten` with the current
      capacity as the bound. */
  method PutAsWritten<V>(m: HashMap<V>, key: int, value: V) returns (m': HashMap<V>, r: Option<V>)
    requires Valid(m)
    ensures Valid(m') && m'.hs == m.hs && (m'.table.Probing? <==> m.table.Probing?)
    ensures r == Lookup(Contents(m), key)
    ensures m'.capacity >= m.capacity
    ensures Submap(Contents(m'), Contents(m)[key := value])
    ensures m.table.Chaining? ==> Contents(m') == Contents(m)[key := value]
    ensures |Contents(m)[key := value]| <= m.capacity / 2 ==>
              m'.capacity == m.capacity && Contents(m') == Contents(m)[key := value]
    ensures LandsHome(m, key) && |Contents(m)[key := value]| <= m.capacity / 2 ==>
              m'.table == Probing(m.table.slots[HashValue(m.hs, key, m.capacity) := Probe.Full(key, value)])
    ensures LandsHome(m, key) && |Contents(m)[key := value]| > m.capacity / 2 ==>
              Submap(Contents(m'), AsMap(Probe.Live(m.table.slots[HashValue(m.hs, key, m.capacity) := Probe.Full(key, value)][..m.n + 1])))
  {
    m', r := PutWithinAsWritten(m, key, value, m.capacity);
  }

  /** `LinearProbeHashMap(3)` with scale 1 and shift 0: `put(2, "a")` fills
      slot 2; `put(0, "b")` fills slot 0 and takes `n` to 2, past one half,
      and `resize(5)` lists only slots 0 and 1, so key 2 is lost. The
      corrected `put` keeps both keys. */
  method PutLosesEntry() returns (before: HashMap<string>, after: HashMap<string>, fixed: HashMap<string>)
    ensures Valid(before) && Contents(before) == map[2 := "a"]
    ensures Valid(after) && 2 !in Contents(after)
    ensures Valid(fixed) && Contents(fixed) == map[2 := "a", 0 := "b"]
  {
    before := PutIntoThree();
    HashOfSmallKey(0, 3);
    assert LandsHome(before, 0);
    assert Contents(before)[0 := "b"].Keys == {0, 2};
    var r;
    after, r := PutAsWritten(before, 0, "b");
    var home := [Probe.Empty, Probe.Empty, Probe.Full(2, "a")];
    assert home[0 := Probe.Full(0, "b")][..2] == [Probe.Full(0, "b"), Probe.Empty];
    Probe.LiveThenEmpty(0, "b");
    assert AsMap([Entry(0, "b")]) == map[0 := "b"];
    fixed, r := Put(before, 0, "b");
  }

  /** The first step of `PutLosesEntry`: `put(2, "a")` into an empty
      `LinearProbeHashMap(3)` with scale 1 and shift 0 fills slot 2 alone. */
  method PutIntoThree() returns (before: HashMap<string>)
    ensures Valid(before) && Contents(before) == map[2 := "a"]
    ensures before.hs == Hasher(PRIME, 1, 0) && before.capacity == 3 && before.n == 1
    ensures before.table == Probing([Probe.Empty, Probe.Empty, Probe.Full(2, "a")])
  {
    var hs := Hasher(PRIME, 1, 0);
    var m: HashMap<string> := New(true, 3, hs);
    HashOfSmallKey(2, 3);
    assert m.table.slots[0] == m.table.slots[1] == m.table.slots[2] == Probe.Empty;
    assert m.table.slots == [Probe.Empty, Probe.Empty, Probe.Empty];
    assert LandsHome(m, 2) && |Contents(m)[2 := "a"]| == 1;
    var r;
    before, r := PutAsWritten(m, 2, "a");
  }

  /** `remove(key)`: deletes the key, returning its value or null; the table
      never shrinks. */
  method Remove<V>(m: HashMap<V>, key: int) returns (m': HashMap<V>, r: Option<V>)
    requires Valid(m)
    ensures Valid(m') && m'.capacity == m.capacity && m'.hs == m.hs
    ensures Contents(m') == Contents(m) - {key}
    ensures r == Lookup(Contents(m), key)
  {
    var h := HashValue(m.hs, key, m.capacity);
    match m.table
    case Probing(s) =>
      NotFull(m);
      var s', n', ret := Probe.BucketRemove(s, m.n, m.hs, h, key);
      m', r := HashMap(Probing(s'), n', m.capacity, m.hs), ret;
    case Chaining(b) =>
      var b', n', ret := Chain.BucketRemove(b, m.n, m.hs, h, key);
      m', r := HashMap(Chaining(b'), n', m.capacity, m.hs), ret;
  }
}
