/**
 * The Ranker: `view.sort_values(by=metric, ascending=not desc).head(n)`.
 * pandas' default sort does not promise an order among rows with equal
 * metric values, so the contract of `Rank` leaves tie order open: it says
 * only what every admissible result shares. `Sort` is one admissible sort.
 */
module Ranker {
  import opened Claims

  /** `a` may stand before `b` when sorting by `m` in the given direction. */
  predicate InOrder(a: Record, b: Record, m: Metric, desc: bool)
  {
    if desc then Key(a, m) >= Key(b, m) else Key(a, m) <= Key(b, m)
  }

  /** Non-increasing by `m` when `desc`, non-decreasing otherwise. */
  ghost predicate SortedBy(s: seq<Record>, m: Metric, desc: bool)
  {
    forall i, j :: 0 <= i < j < |s| ==> InOrder(s[i], s[j], m, desc)
  }

  /** Places `x` before the first row it may precede. */
  function Insert(x: Record, s: seq<Record>, m: Metric, desc: bool): (r: seq<Record>)
    requires SortedBy(s, m, desc)
    ensures SortedBy(r, m, desc)
    ensures multiset(r) == multiset(s) + multiset{x}
    ensures |r| == |s| + 1
  {
    if s == [] then [x]
    else if InOrder(x, s[0], m, desc) then [x] + s
    else
      var rest := Insert(x, s[1..], m, desc);
      assert s == [s[0]] + s[1..];
      assert forall k :: 0 <= k < |rest| ==> InOrder(s[0], rest[k], m, desc) by {
        forall k | 0 <= k < |rest| ensures InOrder(s[0], rest[k], m, desc) {
          assert rest[k] in multiset(rest);
          if rest[k] != x {
            var j :| 0 <= j < |s[1..]| && s[1..][j] == rest[k];
            assert s[j + 1] == rest[k];
          }
        }
      }
      [s[0]] + rest
  }

  /** A sorted permutation of `s`: insertion sort, keeping equal rows in input order. */
  function Sort(s: seq<Record>, m: Metric, desc: bool): (r: seq<Record>)
    ensures SortedBy(r, m, desc)
    ensures multiset(r) == multiset(s)
    ensures |r| == |s|
  {
    if s == [] then []
    else
      assert s == [s[0]] + s[1..];
      Insert(s[0], Sort(s[1..], m, desc), m, desc)
  }

  function Min(a: nat, b: nat): nat
  {
    if a <= b then a else b
  }

  /**
   * The first `n` rows of the view sorted by `m`. The result has
   * `min(n, |view|)` rows (no error when the view is shorter), all taken
   * from the view, in the requested order, and no row left out beats a
   * row kept.
   */
  function Rank(view: seq<Record>, m: Metric, desc: bool, n: nat): (top: seq<Record>)
    ensures |top| == Min(n, |view|)
    ensures multiset(top) <= multiset(view)
    ensures SortedBy(top, m, desc)
    ensures forall x, y :: x in multiset(view) - multiset(top) && y in top ==> InOrder(y, x, m, desc)
  {
    var sorted := Sort(view, m, desc);
    PrefixBeatsRest(sorted, Min(n, |view|), m, desc);
    sorted[..Min(n, |view|)]
  }

  /** In a sorted sequence, every row of the first `k` may precede every row after them. */
  lemma PrefixBeatsRest(sorted: seq<Record>, k: nat, m: Metric, desc: bool)
    requires SortedBy(sorted, m, desc)
    requires k <= |sorted|
    ensures multiset(sorted[..k]) <= multiset(sorted)
    ensures forall x, y :: x in multiset(sorted) - multiset(sorted[..k]) && y in sorted[..k] ==> InOrder(y, x, m, desc)
  {
    var top, rest := sorted[..k], sorted[k..];
    assert sorted == top + rest;
    assert multiset(sorted) - multiset(top) == multiset(rest);
    forall x, y | x in multiset(rest) && y in top
      ensures InOrder(y, x, m, desc)
    {
      var j :| 0 <= j < |rest| && rest[j] == x;
      var i :| 0 <= i < k && top[i] == y;
      assert sorted[i] == y && sorted[k + j] == x;
    }
  }

  /** Asking for more rows than the view has returns the whole view, reordered. */
  lemma RankWholeView(view: seq<Record>, m: Metric, desc: bool, n: nat)
    requires n >= |view|
    ensures multiset(Rank(view, m, desc, n)) == multiset(view)
  {
    var top := Rank(view, m, desc, n);
    var left := multiset(view) - multiset(top);
    assert multiset(view) == multiset(top) + left;
    assert |multiset(view)| == |multiset(top)| + |left|;
    assert |left| == 0;
  }

  /** Top 1 in descending order is a row with the largest metric value in the view. */
  lemma TopOneIsMaximum(view: seq<Record>, m: Metric)
    requires view != []
    ensures |Rank(view, m, true, 1)| == 1
    ensures Rank(view, m, true, 1)[0] in view
    ensures forall x :: x in view ==> Key(x, m) <= Key(Rank(view, m, true, 1)[0], m)
  {
    var top := Rank(view, m, true, 1);
    assert top[0] in multiset(view);
    forall x | x in view ensures Key(x, m) <= Key(top[0], m) {
      if x != top[0] {
        assert multiset(top)[x] == 0;
        assert x in multiset(view) - multiset(top);
      }
    }
  }

  /** An empty view ranks to an empty table. */
  lemma RankEmpty(m: Metric, desc: bool, n: nat)
    ensures Rank([], m, desc, n) == []
  {
  }
}
