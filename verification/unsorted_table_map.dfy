/** `UnsortedTableMap` of map/ChainHashMap.java: a map kept as a list of
    entries in insertion order, searched front to back. The backing
    `list.ArrayList` is taken as its element sequence (that class is modelled
    by module ArrayList). */
module UnsortedTableMap {
  import opened Common
  import opened Entries

  /** The class invariant: no key is stored twice. */
  predicate Valid<V>(t: seq<Entry<V>>) {
    DistinctKeys(t)
  }

  /** `size()`: the number of entries, which is the number of keys. */
  function Size<V>(t: seq<Entry<V>>): (n: int)
    requires Valid(t)
    ensures n == |AsMap(t)|
  {
    AsMapSize(t);
    |t|
  }

  /** `findIdx(key)`: the first index holding `key`, or -1. */
  method FindIdx<V>(t: seq<Entry<V>>, key: int) returns (idx: int)
    ensures -1 <= idx < |t|
    ensures idx == -1 <==> key !in KeysOf(t)
    ensures idx >= 0 ==> t[idx].key == key && forall j :: 0 <= j < idx ==> t[j].key != key
  {
    var i := 0;
    while i < |t|
      invariant 0 <= i <= |t|
      invariant forall j :: 0 <= j < i ==> t[j].key != key
    {
      if t[i].key == key {
        return i;
      }
      i := i + 1;
    }
    return -1;
  }

  /** `get(key)`: the value stored for `key`, or null. */
  method Get<V>(t: seq<Entry<V>>, key: int) returns (r: Option<V>)
    requires Valid(t)
    ensures key in AsMap(t) ==> r == Some(AsMap(t)[key])
    ensures key !in AsMap(t) ==> r == None
  {
    AsMapKeys(t);
    var idx := FindIdx(t, key);
    if idx == -1 {
      return None;
    }
    AsMapAt(t, idx);
    return Some(t[idx].value);
  }

  /** `put(key, value)`: an absent key is appended and null returned; a present
      one has its value replaced and the old value returned. */
  method Put<V>(t: seq<Entry<V>>, key: int, value: V) returns (t': seq<Entry<V>>, r: Option<V>)
    requires Valid(t)
    ensures Valid(t') && AsMap(t') == AsMap(t)[key := value]
    ensures key !in AsMap(t) ==> r == None && t' == t + [Entry(key, value)]
    ensures key in AsMap(t) ==> r == Some(AsMap(t)[key]) && |t'| == |t|
  {
    AsMapKeys(t);
    var idx := FindIdx(t, key);
    if idx == -1 {
      AsMapAppend(t, Entry(key, value));
      return t + [Entry(key, value)], None;
    }
    AsMapAt(t, idx);
    AsMapUpdate(t, idx, value);
    return t[idx := Entry(key, value)], Some(t[idx].value);
  }

  /** `remove(key)`: a present key's entry is deleted, later entries moving
      down one place, and its value returned; otherwise null. */
  method Remove<V>(t: seq<Entry<V>>, key: int) returns (t': seq<Entry<V>>, r: Option<V>)
    requires Valid(t)
    ensures Valid(t') && AsMap(t') == AsMap(t) - {key}
    ensures key !in AsMap(t) ==> r == None && t' == t
    ensures key in AsMap(t) ==> r == Some(AsMap(t)[key]) && |t'| == |t| - 1
  {
    AsMapKeys(t);
    var idx := FindIdx(t, key);
    if idx == -1 {
      assert AsMap(t) - {key} == AsMap(t);
      return t, None;
    }
    AsMapAt(t, idx);
    AsMapDelete(t, idx);
    return t[..idx] + t[idx + 1..], Some(t[idx].value);
  }

  /** `containsKey(key)`: `findIdx(key) != -1`. */
  method ContainsKey<V>(t: seq<Entry<V>>, key: int) returns (b: bool)
    requires Valid(t)
    ensures b <==> key in AsMap(t)
  {
    AsMapKeys(t);
    var idx := FindIdx(t, key);
    return idx != -1;
  }
}
