/** Optional values and success-or-error results, used in place of Python's None and exceptions. */
module Wrappers {

  datatype Option<+T> = None | Some(value: T)

  datatype Result<+T, +E> = Ok(value: T) | Err(error: E)
}

/**
 * Searching sequences for a first occurrence: Python's list.index, and the search for the
 * first separator behind str.split and token.split('.')[0].
 */
module Sequences {
  import opened Wrappers

  /** The position of the first occurrence of x in s, or None when x does not occur. */
  function FirstIndexOf<T(==)>(s: seq<T>, x: T): (r: Option<nat>)
    ensures r.None? <==> x !in s
    ensures r.Some? ==> r.value < |s| && s[r.value] == x && x !in s[..r.value]
  {
    if s == [] then None
    else if s[0] == x then Some(0)
    else
      match FirstIndexOf(s[1..], x)
      case None => None
      case Some(i) =>
        assert s[1..][..i] == s[1..i + 1];
        assert s[..i + 1] == [s[0]] + s[1..i + 1];
        Some(i + 1)
  }

  /** Any position holding x that has no x before it is the one FirstIndexOf finds. */
  lemma FirstIndexOfAt<T>(s: seq<T>, x: T, k: nat)
    requires k < |s| && s[k] == x && x !in s[..k]
    ensures FirstIndexOf(s, x) == Some(k)
  {
  }
}
