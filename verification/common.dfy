/** Shared vocabulary of the model.

    - `Option<T>` stands for a Java reference that may be `null`.
    - `Error` names the unchecked exceptions the containers throw.
    - `Outcome<T>` is the result of a call that may throw instead of returning.
 */
module Common {

  /** A Java reference that may be `null` (`None`). */
  datatype Option<+T> = None | Some(value: T)

  /** The exceptions raised by the modelled code, explicitly or through a
      null dereference. */
  datatype Error =
    | NullPointer        // dereference of null (or of a sentinel's null field)
    | IndexOutOfBounds   // IndexOutOfBoundsException
    | IllegalState       // IllegalStateException (full container, non-empty tree)
    | IllegalArgument    // IllegalArgumentException (bad position)
    | NoSuchElement      // NoSuchElementException (exhausted iterator)
    | NegativeArraySize  // NegativeArraySizeException (array of negative length)

  /** Either the value a call returned or the exception it threw. */
  datatype Outcome<+T> = Ok(value: T) | Throws(error: Error)

  /** The address of a node in a node arena (`map<Ref, Node>`); it stands for
      a Java object reference. */
  type Ref = nat

  /** No reference occurs twice in `c`. */
  predicate Distinct(c: seq<Ref>) {
    forall i, j :: 0 <= i < j < |c| ==> c[i] != c[j]
  }

  /** Adding a reference that does not occur keeps a sequence distinct. */
  lemma DistinctCons(x: Ref, c: seq<Ref>)
    requires Distinct(c) && x !in c
    ensures Distinct([x] + c) && Distinct(c + [x])
  {
    assert forall i :: 0 <= i < |c| ==> ([x] + c)[i + 1] == c[i] && (c + [x])[i] == c[i];
  }

  /** True when every slot of `s` holds a reference. */
  predicate AllPresent<T>(s: seq<Option<T>>) {
    forall i :: 0 <= i < |s| ==> s[i].Some?
  }

  /** True when every slot of `s` is null. */
  predicate AllNull<T>(s: seq<Option<T>>) {
    forall i :: 0 <= i < |s| ==> s[i].None?
  }

  /** The references held by a run of non-null slots, in slot order. */
  function Values<T>(s: seq<Option<T>>): seq<T>
    requires AllPresent(s)
  {
    seq(|s|, i requires 0 <= i < |s| => s[i].value)
  }

  lemma ValuesAppend<T>(a: seq<Option<T>>, b: seq<Option<T>>)
    requires AllPresent(a) && AllPresent(b)
    ensures AllPresent(a + b) && Values(a + b) == Values(a) + Values(b)
  {
  }
}

/** Index arithmetic of the circular buffers (ArrayQueue, ArrayDeque). */
module Ring {

  /** Java's `a % len` for `0 <= a < 2 * len` is a single conditional subtraction. */
  lemma ModOnce(a: int, len: int)
    requires 0 < len && 0 <= a < 2 * len
    ensures a % len == if a < len then a else a - len
  {
    if a < len {
      assert a == 0 * len + a;
    } else {
      assert a == 1 * len + (a - len);
    }
  }
}
