/**
 * The heatmap's Normalizer: every measure column of the Top-N rows is
 * min-max scaled on its own, over those rows only. Values are real numbers,
 * an idealisation of the source's floating point.
 */
module Heatmap {
  import opened Sequences
  import opened Claims

  /** The heatmap's columns, in the order they are normalised and drawn. */
  const HeatColumns: seq<Metric> := [Patients, ClaimCount, VisitDays, InsurerPaid, TotalCost]

  /**
   * One normalised value: `0` when the column is flat, else `(v - mn) / (mx - mn)`.
   * A value between the minimum and the maximum lands in [0, 1].
   */
  function Scale(v: int, mn: int, mx: int): (s: real)
    ensures mx == mn ==> s == 0.0
    ensures mn <= v <= mx ==> 0.0 <= s <= 1.0
  {
    if mx == mn then 0.0
    else
      var a, b := (v - mn) as real, (mx - mn) as real;
      assert mn <= v <= mx ==> 0.0 <= a <= b && 0.0 < b && a / b <= b / b;
      a / b
  }

  /** A column scaled against the given minimum and maximum. */
  function ScaleColumn(vals: seq<int>, mn: int, mx: int): seq<real>
  {
    seq(|vals|, i requires 0 <= i < |vals| => Scale(vals[i], mn, mx))
  }

  /**
   * One column normalised over its own minimum and maximum; an empty column
   * stays empty, and every normalised value lies in [0, 1].
   */
  function NormalizeColumn(vals: seq<int>): (r: seq<real>)
    ensures |r| == |vals|
    ensures forall i :: 0 <= i < |vals| ==> 0.0 <= r[i] <= 1.0
  {
    if vals == [] then []
    else
      var mn, mx := MinOf(vals), MaxOf(vals);
      assert forall i :: 0 <= i < |vals| ==> mn <= vals[i] <= mx by {
        forall i | 0 <= i < |vals| ensures mn <= vals[i] <= mx {
          assert vals[i] in vals;
        }
      }
      ScaleColumn(vals, mn, mx)
  }

  lemma ScaleMonotone(v: int, w: int, mn: int, mx: int)
    requires v <= w && mn <= mx
    ensures Scale(v, mn, mx) <= Scale(w, mn, mx)
  {
    if mx != mn {
      var a, b, c := (v - mn) as real, (w - mn) as real, (mx - mn) as real;
      assert a <= b && 0.0 < c;
      assert a / c <= b / c;
    }
  }

  lemma ScaleAtEnds(mn: int, mx: int)
    ensures Scale(mn, mn, mx) == 0.0
    ensures mn != mx ==> Scale(mx, mn, mx) == 1.0
  {
    if mn != mx {
      var b := (mx - mn) as real;
      assert b != 0.0;
      assert b / b == 1.0;
    }
  }

  /** A column whose values are all equal normalises to 0 everywhere, never to NaN or 1. */
  lemma NormalizeFlat(vals: seq<int>)
    requires forall i, j :: 0 <= i < |vals| && 0 <= j < |vals| ==> vals[i] == vals[j]
    ensures forall i :: 0 <= i < |vals| ==> NormalizeColumn(vals)[i] == 0.0
  {
    if vals != [] {
      var lo :| 0 <= lo < |vals| && vals[lo] == MinOf(vals);
      var hi :| 0 <= hi < |vals| && vals[hi] == MaxOf(vals);
      assert vals[lo] == vals[hi];
    }
  }

  /**
   * A column with distinct values normalises into [0, 1]; its minimum rows
   * map to 0 and its maximum rows to 1.
   */
  lemma NormalizeBounds(vals: seq<int>)
    requires exists i, j :: 0 <= i < |vals| && 0 <= j < |vals| && vals[i] != vals[j]
    ensures forall i :: 0 <= i < |vals| ==> 0.0 <= NormalizeColumn(vals)[i] <= 1.0
    ensures forall i :: 0 <= i < |vals| && vals[i] == MinOf(vals) ==> NormalizeColumn(vals)[i] == 0.0
    ensures forall i :: 0 <= i < |vals| && vals[i] == MaxOf(vals) ==> NormalizeColumn(vals)[i] == 1.0
  {
    var mn, mx := MinOf(vals), MaxOf(vals);
    var i, j :| 0 <= i < |vals| && 0 <= j < |vals| && vals[i] != vals[j];
    assert vals[i] in vals && vals[j] in vals;
    assert mn < mx;
    ScaleAtEnds(mn, mx);
  }

  /** Scaling keeps the order of values: a smaller value never gets a larger score. */
  lemma NormalizeMonotone(vals: seq<int>, i: nat, j: nat)
    requires i < |vals| && j < |vals| && vals[i] <= vals[j]
    ensures NormalizeColumn(vals)[i] <= NormalizeColumn(vals)[j]
  {
    if vals != [] {
      assert vals[i] in vals;
      ScaleMonotone(vals[i], vals[j], MinOf(vals), MaxOf(vals));
    }
  }

  /** The whole normalised frame as a value: one column per heat column. */
  function NormalizedFrame(top: seq<Record>): (f: seq<seq<real>>)
    ensures |f| == |HeatColumns|
    ensures forall k :: 0 <= k < |f| ==> |f[k]| == |top|
    ensures forall k, i :: 0 <= k < |f| && 0 <= i < |f[k]| ==> 0.0 <= f[k][i] <= 1.0
  {
    seq(|HeatColumns|, k requires 0 <= k < |HeatColumns| => NormalizeColumn(Column(top, HeatColumns[k])))
  }

  /**
   * The loop that adds one `_norm` column per heat column: for each column
   * it takes the minimum and maximum over the Top-N rows and scales.
   */
  method NormalizeHeatmap(top: seq<Record>) returns (norm: seq<seq<real>>)
    ensures norm == NormalizedFrame(top)
  {
    norm := [];
    for k := 0 to |HeatColumns|
      invariant |norm| == k
      invariant forall j :: 0 <= j < k ==> norm[j] == NormalizeColumn(Column(top, HeatColumns[j]))
    {
      var col := Column(top, HeatColumns[k]);
      var scaled: seq<real>;
      if col == [] {
        scaled := [];
      } else {
        var mn, mx := MinOf(col), MaxOf(col);
        scaled := ScaleColumn(col, mn, mx);
      }
      norm := norm + [scaled];
    }
  }
}
