/** Sequences of map entries (`MapEntry` of map/AbstractMap.java with `int`
    keys) and the map they stand for. The hash maps list their entries in this
    form, and `UnsortedTableMap` stores its bucket as one. */
module Entries {
  import opened Common

  /** A `MapEntry`: a key and its value. */
  datatype Entry<V> = Entry(key: int, value: V)

  /** No key occurs twice. */
  predicate DistinctKeys<V>(s: seq<Entry<V>>) {
    forall i, j :: 0 <= i < j < |s| ==> s[i].key != s[j].key
  }

  /** The keys listed in `s`. */
  function KeysOf<V>(s: seq<Entry<V>>): set<int> {
    set i | 0 <= i < |s| :: s[i].key
  }

  /** The map `s` stands for; a later entry wins over an earlier one with the
      same key. */
  function AsMap<V>(s: seq<Entry<V>>): map<int, V> {
    if s == [] then map[]
    else AsMap(s[..|s| - 1])[s[|s| - 1].key := s[|s| - 1].value]
  }

  /** The keys of `AsMap(s)` are the keys listed in `s`. */
  lemma {:induction false} AsMapKeys<V>(s: seq<Entry<V>>)
    ensures AsMap(s).Keys == KeysOf(s)
  {
    if s != [] {
      var p := s[..|s| - 1];
      AsMapKeys(p);
      assert KeysOf(s) == KeysOf(p) + {s[|s| - 1].key} by {
        forall k | k in KeysOf(s) ensures k in KeysOf(p) + {s[|s| - 1].key} {
          var i :| 0 <= i < |s| && s[i].key == k;
          if i < |s| - 1 { assert p[i] == s[i]; }
        }
        forall k | k in KeysOf(p) ensures k in KeysOf(s) {
          var i :| 0 <= i < |p| && p[i].key == k;
          assert s[i] == p[i];
        }
      }
    }
  }

  /** Without repeated keys, every listed entry is what the map holds. */
  lemma {:induction false} AsMapAt<V>(s: seq<Entry<V>>, i: int)
    requires DistinctKeys(s) && 0 <= i < |s|
    ensures s[i].key in AsMap(s) && AsMap(s)[s[i].key] == s[i].value
  {
    if i < |s| - 1 {
      var p := s[..|s| - 1];
      assert p[i] == s[i];
      AsMapAt(p, i);
    }
  }

  /** Without repeated keys, the map has one key per entry. */
  lemma {:induction false} AsMapSize<V>(s: seq<Entry<V>>)
    requires DistinctKeys(s)
    ensures |AsMap(s)| == |s|
  {
    if s != [] {
      var p := s[..|s| - 1];
      AsMapSize(p);
      AsMapKeys(p);
      assert s[|s| - 1].key !in KeysOf(p);
    }
  }

  /** Replacing the value of entry `i` updates that key of the map. */
  lemma {:induction false} AsMapUpdate<V>(s: seq<Entry<V>>, i: int, v: V)
    requires DistinctKeys(s) && 0 <= i < |s|
    ensures DistinctKeys(s[i := Entry(s[i].key, v)])
    ensures AsMap(s[i := Entry(s[i].key, v)]) == AsMap(s)[s[i].key := v]
  {
    var s' := s[i := Entry(s[i].key, v)];
    var p := s[..|s| - 1];
    if i < |s| - 1 {
      assert s'[..|s| - 1] == p[i := Entry(s[i].key, v)];
      AsMapUpdate(p, i, v);
      assert s[i].key != s[|s| - 1].key;
    } else {
      assert s'[..|s| - 1] == p;
    }
  }

  /** Deleting entry `i` (later entries shift down) removes its key. */
  lemma {:induction false} AsMapDelete<V>(s: seq<Entry<V>>, i: int)
    requires DistinctKeys(s) && 0 <= i < |s|
    ensures DistinctKeys(s[..i] + s[i + 1..])
    ensures AsMap(s[..i] + s[i + 1..]) == AsMap(s) - {s[i].key}
    decreases |s|, 1
  {
    if i == |s| - 1 {
      var p := s[..|s| - 1];
      assert s[..i] + s[i + 1..] == p;
      AsMapKeys(p);
      assert s[i].key !in KeysOf(p);
    } else {
      AsMapDeleteInner(s, i);
    }
  }

  /** `AsMapDelete` for an entry before the last: the last entry stays on
      top of the shortened prefix. */
  lemma {:induction false} AsMapDeleteInner<V>(s: seq<Entry<V>>, i: int)
    requires DistinctKeys(s) && 0 <= i < |s| - 1
    ensures DistinctKeys(s[..i] + s[i + 1..])
    ensures AsMap(s[..i] + s[i + 1..]) == AsMap(s) - {s[i].key}
    decreases |s|, 0
  {
    var s' := s[..i] + s[i + 1..];
    var p := s[..|s| - 1];
    assert forall j :: 0 <= j < i ==> s'[j] == s[j];
    assert forall j :: i <= j < |s'| ==> s'[j] == s[j + 1];
    AsMapDelete(p, i);
    assert s'[..|s'| - 1] == p[..i] + p[i + 1..];
    assert s'[|s'| - 1] == s[|s| - 1];
    assert s[i].key != s[|s| - 1].key;
  }

  /** Appending an entry with a new key keeps the keys distinct and adds it. */
  lemma AsMapAppend<V>(s: seq<Entry<V>>, e: Entry<V>)
    requires DistinctKeys(s) && e.key !in AsMap(s)
    ensures DistinctKeys(s + [e]) && AsMap(s + [e]) == AsMap(s)[e.key := e.value]
  {
    AsMapKeys(s);
    assert (s + [e])[..|s|] == s;
    assert forall j :: 0 <= j < |s| ==> s[j].key in KeysOf(s);
  }

  /** The map of two lists with disjoint keys joins their maps. */
  lemma {:induction false} AsMapConcat<V>(a: seq<Entry<V>>, b: seq<Entry<V>>)
    requires KeysOf(a) !! KeysOf(b)
    ensures AsMap(a + b) == AsMap(a) + AsMap(b)
  {
    if b != [] {
      var b' := b[..|b| - 1];
      assert (a + b)[..|a + b| - 1] == a + b';
      assert KeysOf(b') <= KeysOf(b) by {
        forall k | k in KeysOf(b') ensures k in KeysOf(b) {
          var i :| 0 <= i < |b'| && b'[i].key == k;
          assert b[i] == b'[i];
        }
      }
      AsMapConcat(a, b');
      AsMapKeys(a);
      assert b[|b| - 1].key in KeysOf(b);
    } else {
      assert a + b == a;
    }
  }

  /** The keys of a concatenation are the keys of its parts. */
  lemma KeysOfConcat<V>(a: seq<Entry<V>>, b: seq<Entry<V>>)
    ensures KeysOf(a + b) == KeysOf(a) + KeysOf(b)
  {
    forall k | k in KeysOf(a) ensures k in KeysOf(a + b) {
      var i :| 0 <= i < |a| && a[i].key == k;
      assert (a + b)[i] == a[i];
    }
    forall k | k in KeysOf(b) ensures k in KeysOf(a + b) {
      var i :| 0 <= i < |b| && b[i].key == k;
      assert (a + b)[|a| + i] == b[i];
    }
  }

  /** Two lists without repeated keys, whose keys are disjoint, join into a
      list without repeated keys. */
  lemma DistinctConcat<V>(a: seq<Entry<V>>, b: seq<Entry<V>>)
    requires DistinctKeys(a) && DistinctKeys(b) && KeysOf(a) !! KeysOf(b)
    ensures DistinctKeys(a + b)
  {
    forall i, j | 0 <= i < j < |a + b| ensures (a + b)[i].key != (a + b)[j].key {
      if i < |a| && j >= |a| {
        assert a[i].key in KeysOf(a);
        assert b[j - |a|].key in KeysOf(b);
      }
    }
  }

  /** A listing whose keys are distinct splits into two distinct halves with
      no key in common. */
  lemma DistinctSplit<V>(a: seq<Entry<V>>, b: seq<Entry<V>>)
    requires DistinctKeys(a + b)
    ensures DistinctKeys(a) && DistinctKeys(b) && KeysOf(a) !! KeysOf(b)
  {
    forall i, j | 0 <= i < j < |a| ensures a[i].key != a[j].key {
      assert (a + b)[i] == a[i] && (a + b)[j] == a[j];
    }
    forall i, j | 0 <= i < j < |b| ensures b[i].key != b[j].key {
      assert (a + b)[|a| + i] == b[i] && (a + b)[|a| + j] == b[j];
    }
    forall k | k in KeysOf(a) ensures k !in KeysOf(b) {
      var i :| 0 <= i < |a| && a[i].key == k;
      forall j | 0 <= j < |b| ensures b[j].key != k {
        assert (a + b)[i] == a[i] && (a + b)[|a| + j] == b[j];
      }
    }
  }

  /** Every key of `a` is in `b`, with the same value. */
  ghost predicate Submap<V>(a: map<int, V>, b: map<int, V>) {
    forall k :: k in a ==> k in b && a[k] == b[k]
  }

  /** A sub-map has no more keys than the map it sits in. */
  lemma SubmapSize<V>(a: map<int, V>, b: map<int, V>)
    requires Submap(a, b)
    ensures |a| <= |b|
  {
    forall k | k in a.Keys ensures k in b.Keys {
      assert k in a;
    }
    assert b.Keys == a.Keys + (b.Keys - a.Keys);
  }

  /** One more entry of a listing updates its map. */
  lemma AsMapSnoc<V>(s: seq<Entry<V>>, i: int)
    requires 0 <= i < |s|
    ensures AsMap(s[..i + 1]) == AsMap(s[..i])[s[i].key := s[i].value]
  {
    assert s[..i + 1][..i] == s[..i];
  }

  /** A map `a` within the map of the first `i` entries of `s`, given entry
      `i` (possibly dropping keys), is within the map of the first `i + 1`
      entries; when nothing is dropped the maps are equal. */
  lemma SubmapStep<V>(a: map<int, V>, c: map<int, V>, s: seq<Entry<V>>, i: int)
    requires 0 <= i < |s|
    requires Submap(a, AsMap(s[..i])) && Submap(c, a[s[i].key := s[i].value])
    ensures Submap(c, AsMap(s[..i + 1]))
    ensures a == AsMap(s[..i]) && c == a[s[i].key := s[i].value] ==> c == AsMap(s[..i + 1])
  {
    AsMapSnoc(s, i);
  }

  /** A prefix of a distinct listing maps its keys as the whole listing does. */
  lemma AsMapPrefix<V>(a: seq<Entry<V>>, b: seq<Entry<V>>)
    requires DistinctKeys(a + b)
    ensures DistinctKeys(a) && Submap(AsMap(a), AsMap(a + b))
  {
    DistinctSplit(a, b);
    AsMapConcat(a, b);
    AsMapKeys(a);
    AsMapKeys(b);
  }

  /** `m.get(k)` for a Java map: the value, or null when absent. */
  function Lookup<V>(m: map<int, V>, k: int): Option<V> {
    if k in m then Some(m[k]) else None
  }

  /** Two maps that answer every lookup alike are equal. */
  lemma LookupExt<V>(m1: map<int, V>, m2: map<int, V>)
    requires forall k :: Lookup(m1, k) == Lookup(m2, k)
    ensures m1 == m2
  {
    forall k | k in m1 ensures k in m2 && m1[k] == m2[k] {
      assert Lookup(m1, k) == Lookup(m2, k);
    }
    forall k | k in m2 ensures k in m1 {
      assert Lookup(m1, k) == Lookup(m2, k);
    }
  }
}
