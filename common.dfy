/** Small value wrappers shared by every screen of the model. */
module Common {

  /** A value that may be missing: an empty form field, a NULL column, an absent property. */
  datatype Option<+T> = None | Some(value: T)

  /** The outcome of an operation that the source either completes or refuses with a message. */
  datatype Result<+T, +E> = Success(value: T) | Failure(error: E)

  function Min(a: int, b: int): int { if a <= b then a else b }

  function Max(a: int, b: int): int { if a >= b then a else b }

  /** `part / whole * 100` as an exact rational; the caller guards against an empty whole. */
  function Percentage(part: nat, whole: nat): (r: real)
    requires whole > 0
    ensures r * (whole as real) == (part as real) * 100.0
    ensures 0.0 <= r
    ensures part <= whole <==> r <= 100.0
  {
    var q := part as real / whole as real;
    assert q * (whole as real) == part as real;
    assert q * 100.0 * (whole as real) == q * (whole as real) * 100.0;
    q * 100.0
  }

  /** `p` is an initial piece of `s`. */
  predicate IsPrefixOf<T(==)>(p: seq<T>, s: seq<T>)
  {
    |p| <= |s| && s[..|p|] == p
  }
}
