/** The hash function of map/AbstractHashMap.java: a MAD (multiply, add,
    divide) compression of the key's hash code into `[0, capacity)`. */
module HashCommon {

  /** The default prime of `AbstractHashMap(cap)`. */
  const PRIME := 109345121

  /** The default capacity of `AbstractHashMap()`. */
  const CAPACITY := 17

  /** The factors drawn when a map is built: `scale` from `[1, prime - 1]` and
      `shift` from `[0, prime - 1]` (the random draw is an input here). */
  datatype Hasher = Hasher(prime: int, scale: int, shift: int)

  predicate ValidHasher(hs: Hasher) {
    && 2 <= hs.prime
    && 1 <= hs.scale <= hs.prime - 1
    && 0 <= hs.shift <= hs.prime - 1
  }

  function Abs(x: int): (r: int)
    ensures 0 <= r && (r == x || r == -x)
  {
    if x < 0 then -x else x
  }

  /** `hashValue(key)`: `|hashCode * scale + shift| % prime % capacity`, with
      the `int` key as its own hash code (as for `Integer`). The operands of
      both `%` are non-negative, so Java's remainder agrees with Dafny's. */
  function HashValue(hs: Hasher, key: int, capacity: int): (h: int)
    requires ValidHasher(hs) && 1 <= capacity
    ensures 0 <= h < capacity
  {
    Abs(key * hs.scale + hs.shift) % hs.prime % capacity
  }

  /** With scale 1 and shift 0, a key below the capacity hashes to itself. */
  lemma HashOfSmallKey(key: int, capacity: int)
    requires 0 <= key < capacity <= PRIME
    ensures HashValue(Hasher(PRIME, 1, 0), key, capacity) == key
  {
    assert key * 1 + 0 == key;
  }
}
