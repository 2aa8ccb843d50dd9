/**
 * The stable sort behind `Array.prototype.sort` with a comparator, and behind
 * SQL `ORDER BY` once ties are kept in table order.
 *
 * A comparator is given as `le(x, y)`: "x may stay in front of y", which is
 * JavaScript's `compare(x, y) <= 0`. `SortBy` is insertion sort from the back,
 * so that an element is placed in front of every later element it may precede:
 * elements that compare equal keep their input order.
 */
module Sorting {
  import opened Common

  /** Any two elements can be ordered one way or the other. */
  ghost predicate Total<T(!new)>(le: (T, T) -> bool)
  {
    forall x, y :: le(x, y) || le(y, x)
  }

  ghost predicate Transitive<T(!new)>(le: (T, T) -> bool)
  {
    forall x, y, z {:trigger le(x, y), le(y, z)} :: le(x, y) && le(y, z) ==> le(x, z)
  }

  predicate Sorted<T>(s: seq<T>, le: (T, T) -> bool)
  {
    forall i, j :: 0 <= i < j < |s| ==> le(s[i], s[j])
  }

  lemma TransitiveAt<T(!new)>(le: (T, T) -> bool, x: T, y: T, z: T)
    requires Transitive(le)
    ensures le(x, y) && le(y, z) ==> le(x, z)
  {
  }

  /** Puts `x` in front of the first element it may precede. */
  function Insert<T>(x: T, s: seq<T>, le: (T, T) -> bool): (r: seq<T>)
    ensures |r| == |s| + 1
  {
    if s == [] || le(x, s[0]) then [x] + s else [s[0]] + Insert(x, s[1..], le)
  }

  function SortBy<T>(s: seq<T>, le: (T, T) -> bool): (r: seq<T>)
    ensures |r| == |s|
  {
    if s == [] then [] else Insert(s[0], SortBy(s[1..], le), le)
  }

  lemma {:induction false} InsertPermutes<T>(x: T, s: seq<T>, le: (T, T) -> bool)
    ensures multiset(Insert(x, s, le)) == multiset(s) + multiset{x}
  {
    if s != [] && !le(x, s[0]) {
      InsertPermutes(x, s[1..], le);
      assert s == [s[0]] + s[1..];
    }
  }

  /** The result holds the same elements, as often as the input. */
  lemma {:induction false} SortByPermutes<T>(s: seq<T>, le: (T, T) -> bool)
    ensures multiset(SortBy(s, le)) == multiset(s)
  {
    if s != [] {
      SortByPermutes(s[1..], le);
      InsertPermutes(s[0], SortBy(s[1..], le), le);
      assert s == [s[0]] + s[1..];
    }
  }

  lemma {:induction false} InsertSorted<T(!new)>(x: T, s: seq<T>, le: (T, T) -> bool)
    requires Total(le) && Transitive(le)
    requires Sorted(s, le)
    ensures Sorted(Insert(x, s, le), le)
  {
    if s == [] {
    } else if le(x, s[0]) {
      forall j | 0 < j < |s| ensures le(x, s[j]) {
        TransitiveAt(le, x, s[0], s[j]);
      }
      assert forall j :: 0 <= j < |s| ==> ([x] + s)[j + 1] == s[j];
    } else {
      InsertSorted(x, s[1..], le);
      InsertPermutes(x, s[1..], le);
      var r := Insert(x, s[1..], le);
      forall k | 0 <= k < |r| ensures le(s[0], r[k]) {
        assert r[k] in multiset(r);
        if r[k] != x {
          assert r[k] in multiset(s[1..]);
          var m :| 0 <= m < |s[1..]| && s[1..][m] == r[k];
          assert s[m + 1] == r[k];
        }
      }
    }
  }

  /** The result is ordered by the comparator. */
  lemma {:induction false} SortBySorted<T(!new)>(s: seq<T>, le: (T, T) -> bool)
    requires Total(le) && Transitive(le)
    ensures Sorted(SortBy(s, le), le)
  {
    if s != [] {
      SortBySorted(s[1..], le);
      InsertSorted(s[0], SortBy(s[1..], le), le);
    }
  }

  /** A sequence that is already ordered comes back unchanged: the sort is stable. */
  lemma {:induction false} SortByKeepsSorted<T>(s: seq<T>, le: (T, T) -> bool)
    requires Sorted(s, le)
    ensures SortBy(s, le) == s
  {
    if s != [] {
      assert Sorted(s[1..], le);
      SortByKeepsSorted(s[1..], le);
      assert s == [s[0]] + s[1..];
    }
  }

  predicate Equivalent<T>(x: T, v: T, le: (T, T) -> bool)
  {
    le(x, v) && le(v, x)
  }

  /** The elements of `s` that compare equal to `v`, in their order in `s`. */
  function Ties<T>(s: seq<T>, v: T, le: (T, T) -> bool): seq<T>
  {
    if s == [] then []
    else (if Equivalent(s[0], v, le) then [s[0]] else []) + Ties(s[1..], v, le)
  }

  lemma TiesCons<T>(y: T, r: seq<T>, v: T, le: (T, T) -> bool)
    ensures Ties([y] + r, v, le) == (if Equivalent(y, v, le) then [y] else []) + Ties(r, v, le)
  {
    assert ([y] + r)[1..] == r;
  }

  lemma {:induction false} InsertTies<T(!new)>(x: T, s: seq<T>, v: T, le: (T, T) -> bool)
    requires Transitive(le)
    ensures Ties(Insert(x, s, le), v, le)
         == (if Equivalent(x, v, le) then [x] else []) + Ties(s, v, le)
  {
    if s == [] || le(x, s[0]) {
      TiesCons(x, s, v, le);
    } else {
      InsertTies(x, s[1..], v, le);
      TiesCons(s[0], Insert(x, s[1..], le), v, le);
      // s[0] was passed over, so when x ties with v, s[0] does not
      TransitiveAt(le, x, v, s[0]);
    }
  }

  /** Elements that compare equal leave the sort in the order they came in. */
  lemma {:induction false} SortByStable<T(!new)>(s: seq<T>, v: T, le: (T, T) -> bool)
    requires Transitive(le)
    ensures Ties(SortBy(s, le), v, le) == Ties(s, v, le)
  {
    if s != [] {
      SortByStable(s[1..], v, le);
      InsertTies(s[0], SortBy(s[1..], le), v, le);
    }
  }

  /** The ties of a prefix are a prefix of the ties. */
  lemma {:induction false} TiesOfPrefix<T>(s: seq<T>, k: nat, v: T, le: (T, T) -> bool)
    requires k <= |s|
    ensures IsPrefixOf(Ties(s[..k], v, le), Ties(s, v, le))
  {
    if k > 0 {
      TiesOfPrefix(s[1..], k - 1, v, le);
      assert s[..k][1..] == s[1..][..k - 1];
    }
  }

  /**
   * The first `k` elements of a sorted permutation are no later in the order
   * than any element left behind.
   */
  lemma SortedPrefixIsLeast<T(!new)>(s: seq<T>, k: nat, le: (T, T) -> bool)
    requires Total(le) && Transitive(le)
    requires k <= |s|
    ensures var r := SortBy(s, le);
      forall x, y :: x in r[..k] && y in multiset(s) - multiset(r[..k]) ==> le(x, y)
  {
    var r := SortBy(s, le);
    SortBySorted(s, le);
    SortByPermutes(s, le);
    assert r == r[..k] + r[k..];
    assert multiset(s) - multiset(r[..k]) == multiset(r[k..]);
    forall x, y | x in r[..k] && y in multiset(r[k..]) ensures le(x, y) {
      var i :| 0 <= i < k && r[i] == x;
      var j :| 0 <= j < |r[k..]| && r[k..][j] == y;
      assert r[k + j] == y;
    }
  }

  /** `SortBy`, carried out in place on an array the way the browser sorts it. */
  method SortInPlace<T>(a: array<T>, le: (T, T) -> bool)
    modifies a
    ensures a[..] == SortBy(old(a[..]), le)
  {
    ghost var orig := a[..];
    var i := a.Length;
    while i > 0
      invariant 0 <= i <= a.Length
      invariant a[..i] == orig[..i]
      invariant a[i..] == SortBy(orig[i..], le)
    {
      i := i - 1;
      assert orig[i..] == [orig[i]] + orig[i + 1..];
      assert a[i] == orig[i];
      InsertIntoSortedSuffix(a, i, le);
    }
  }

  /** `Insert` places `x` in front of the first element it may precede. */
  lemma {:induction false} InsertAt<T>(x: T, s: seq<T>, p: nat, le: (T, T) -> bool)
    requires p <= |s|
    requires forall m :: 0 <= m < p ==> !le(x, s[m])
    requires p == |s| || le(x, s[p])
    ensures Insert(x, s, le) == s[..p] + [x] + s[p..]
  {
    if p > 0 {
      InsertAt(x, s[1..], p - 1, le);
      assert s[..p] == [s[0]] + s[1..][..p - 1];
      assert s[p..] == s[1..][p - 1..];
    }
  }

  /** Moves `a[i]` right, past every element it may not precede, into the suffix `a[i + 1..]`. */
  method InsertIntoSortedSuffix<T>(a: array<T>, i: nat, le: (T, T) -> bool)
    requires i < a.Length
    modifies a
    ensures a[..i] == old(a[..i])
    ensures a[i..] == Insert(old(a[i]), old(a[i + 1..]), le)
  {
    var x := a[i];
    ghost var o := a[..];
    var j := i;
    while j + 1 < a.Length && !le(x, a[j + 1])
      invariant i <= j < a.Length
      invariant forall m :: 0 <= m < i || j < m < a.Length ==> a[m] == o[m]
      invariant forall m :: i <= m < j ==> a[m] == o[m + 1] && !le(x, a[m])
    {
      a[j] := a[j + 1];
      j := j + 1;
    }
    a[j] := x;
    ShiftedIsInsert(o, a[..], i, j, le);
  }

  /**
   * The array after the shifting loop: the elements from `i + 1` up to `j`
   * moved one place left and `o[i]` put at `j` is `Insert` on the suffix.
   */
  lemma ShiftedIsInsert<T>(o: seq<T>, b: seq<T>, i: nat, j: nat, le: (T, T) -> bool)
    requires i <= j < |o| == |b|
    requires forall m :: 0 <= m < i || j < m < |o| ==> b[m] == o[m]
    requires forall m :: i <= m < j ==> b[m] == o[m + 1] && !le(o[i], b[m])
    requires b[j] == o[i]
    requires j + 1 == |o| || le(o[i], o[j + 1])
    ensures b[..i] == o[..i]
    ensures b[i..] == Insert(o[i], o[i + 1..], le)
  {
    var x, s := o[i], o[i + 1..];
    var p := j - i;
    forall m | 0 <= m < p ensures !le(x, s[m]) {
      assert s[m] == b[i + m];
    }
    InsertAt(x, s, p, le);
    var r := s[..p] + [x] + s[p..];
    forall m | 0 <= m < |b| - i ensures b[i + m] == r[m] {
      if m < p {
        assert r[m] == s[m];
      } else if p < m {
        assert r[m] == s[m - 1];
      }
    }
    assert b[i..] == r;
  }
}
