/**
 * Strict total orders and the "sorted list of distinct values" that
 * `sorted(column.unique().tolist())` produces for the year and disease
 * option lists, together with Python's ordering of strings.
 */
module Ordering {
  import opened Sequences

  ghost predicate IsStrictTotalOrder<T(!new)>(lt: (T, T) -> bool)
  {
    && (forall x :: !lt(x, x))
    && (forall x, y, z :: lt(x, y) && lt(y, z) ==> lt(x, z))
    && (forall x, y :: x != y ==> lt(x, y) || lt(y, x))
  }

  /** Every earlier element is strictly below every later one. */
  ghost predicate StrictlySorted<T>(s: seq<T>, lt: (T, T) -> bool)
  {
    forall i, j :: 0 <= i < j < |s| ==> lt(s[i], s[j])
  }

  /** Adds `x` to a strictly sorted sequence unless it is already there. */
  function InsertUnique<T(==,!new)>(x: T, s: seq<T>, lt: (T, T) -> bool): (r: seq<T>)
    requires IsStrictTotalOrder(lt)
    requires StrictlySorted(s, lt)
    ensures StrictlySorted(r, lt)
    ensures forall y :: y in r <==> y == x || y in s
  {
    if s == [] then [x]
    else if x == s[0] then s
    else if lt(x, s[0]) then [x] + s
    else
      var rest := InsertUnique(x, s[1..], lt);
      assert forall y :: y in s[1..] ==> lt(s[0], y) by {
        forall y | y in s[1..] ensures lt(s[0], y) {
          var k :| 0 <= k < |s[1..]| && s[1..][k] == y;
          assert s[k + 1] == y;
        }
      }
      assert forall k :: 0 <= k < |rest| ==> lt(s[0], rest[k]) by {
        forall k | 0 <= k < |rest| ensures lt(s[0], rest[k]) {
          assert rest[k] in rest;
        }
      }
      [s[0]] + rest
  }

  /** The distinct values of `s` in ascending order: Python's `sorted(set(s))`. */
  function SortedUnique<T(==,!new)>(s: seq<T>, lt: (T, T) -> bool): (r: seq<T>)
    requires IsStrictTotalOrder(lt)
    ensures StrictlySorted(r, lt)
    ensures forall i, j :: 0 <= i < j < |r| ==> r[i] != r[j]
    ensures forall y :: y in r <==> y in s
  {
    if s == [] then []
    else InsertUnique(s[|s| - 1], SortedUnique(s[..|s| - 1], lt), lt)
  }

  /** Deleting elements from a strictly sorted sequence leaves it strictly sorted. */
  lemma {:induction false} SubsequenceStrictlySorted<T(!new)>(a: seq<T>, b: seq<T>, lt: (T, T) -> bool)
    requires IsSubsequence(a, b)
    requires StrictlySorted(b, lt)
    ensures StrictlySorted(a, lt)
    decreases |b|
  {
    if a != [] {
      assert StrictlySorted(b[1..], lt);
      if a[0] == b[0] && IsSubsequence(a[1..], b[1..]) {
        SubsequenceStrictlySorted(a[1..], b[1..], lt);
        SubsequenceMembers(a[1..], b[1..]);
        forall j | 0 < j < |a| ensures lt(a[0], a[j]) {
          assert a[j] == a[1..][j - 1] && a[1..][j - 1] in a[1..];
          var k :| 0 <= k < |b[1..]| && b[1..][k] == a[j];
        }
      } else {
        SubsequenceStrictlySorted(a, b[1..], lt);
      }
    }
  }

  /** Integer order, used for the year list. */
  predicate IntLess(a: int, b: int)
  {
    a < b
  }

  /**
   * Python's string order: lexicographic by code point, with a proper prefix
   * ordered before the longer string.
   */
  predicate LexLess(a: string, b: string)
  {
    if a == [] then b != []
    else if b == [] then false
    else if a[0] != b[0] then a[0] < b[0]
    else LexLess(a[1..], b[1..])
  }

  lemma IntLessIsStrictTotalOrder()
    ensures IsStrictTotalOrder(IntLess)
  {
  }

  lemma {:induction false} LexLessIrreflexive(a: string)
    ensures !LexLess(a, a)
  {
    if a != [] {
      LexLessIrreflexive(a[1..]);
    }
  }

  lemma {:induction false} LexLessTransitive(a: string, b: string, c: string)
    requires LexLess(a, b) && LexLess(b, c)
    ensures LexLess(a, c)
  {
    if a != [] && b != [] && c != [] && a[0] == b[0] && b[0] == c[0] {
      LexLessTransitive(a[1..], b[1..], c[1..]);
    }
  }

  lemma {:induction false} LexLessConnected(a: string, b: string)
    requires a != b
    ensures LexLess(a, b) || LexLess(b, a)
  {
    if a != [] && b != [] && a[0] == b[0] {
      assert a == [a[0]] + a[1..] && b == [b[0]] + b[1..];
      LexLessConnected(a[1..], b[1..]);
    }
  }

  lemma LexLessIsStrictTotalOrder()
    ensures IsStrictTotalOrder(LexLess)
  {
    forall a: string ensures !LexLess(a, a) {
      LexLessIrreflexive(a);
    }
    forall a: string, b: string, c: string | LexLess(a, b) && LexLess(b, c)
      ensures LexLess(a, c)
    {
      LexLessTransitive(a, b, c);
    }
    forall a: string, b: string | a != b
      ensures LexLess(a, b) || LexLess(b, a)
    {
      LexLessConnected(a, b);
    }
  }
}
