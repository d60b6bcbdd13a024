/**
 * The Aggregator behind the summary panel's three metrics: total patients,
 * total cost, and the average cost per patient with its division guard.
 */
module Aggregator {
  import opened Sequences
  import opened Claims

  /** The column total `int(df[col].sum())`: no row's value exceeds it, and no rows sum to 0. */
  function Total(rows: seq<Record>, m: Metric): (t: nat)
    ensures forall i :: 0 <= i < |rows| ==> Key(rows[i], m) <= t
    ensures rows == [] ==> t == 0
  {
    SumBoundsElements(Column(rows, m));
    Sum(Column(rows, m))
  }

  datatype Summary = Summary(totalPatients: nat, totalCost: nat, avgCostPerPatient: nat)

  /**
   * The summary panel's numbers. The average is total cost over total
   * patients truncated to an integer, and 0 when there are no patients, so
   * it never divides by zero; it is the largest integer whose product with
   * the patient total does not exceed the cost total.
   */
  function Summarize(view: seq<Record>): (s: Summary)
    ensures s.totalPatients == Total(view, Patients) && s.totalCost == Total(view, TotalCost)
    ensures s.totalPatients > 0 ==>
              s.avgCostPerPatient * s.totalPatients <= s.totalCost < (s.avgCostPerPatient + 1) * s.totalPatients
    ensures s.totalPatients == 0 ==> s.avgCostPerPatient == 0
  {
    var patients := Total(view, Patients);
    var cost := Total(view, TotalCost);
    Summary(patients, cost, if patients > 0 then cost / patients else 0)
  }

  /** An empty view summarises to (0, 0, 0), with no division. */
  lemma EmptySummary()
    ensures Summarize([]) == Summary(0, 0, 0)
  {
  }

  /** Totals add up over concatenated row sets. */
  lemma {:induction false} TotalAppend(a: seq<Record>, b: seq<Record>, m: Metric)
    ensures Total(a + b, m) == Total(a, m) + Total(b, m)
  {
    ColumnAppend(a, b, m);
    SumAppend(Column(a, m), Column(b, m));
  }

  lemma {:induction false} ColumnAppend(a: seq<Record>, b: seq<Record>, m: Metric)
    ensures Column(a + b, m) == Column(a, m) + Column(b, m)
  {
    var l, r := Column(a + b, m), Column(a, m) + Column(b, m);
    assert |l| == |r|;
    forall i | 0 <= i < |l| ensures l[i] == r[i] {
      if i < |a| {
        assert (a + b)[i] == a[i];
      } else {
        assert (a + b)[i] == b[i - |a|];
      }
    }
  }

  /** The total is zero exactly when every row contributes zero. */
  lemma {:induction false} TotalZero(rows: seq<Record>, m: Metric)
    ensures Total(rows, m) == 0 <==> forall r :: r in rows ==> Key(r, m) == 0
  {
    if rows != [] {
      assert rows == [rows[0]] + rows[1..];
      TotalAppend([rows[0]], rows[1..], m);
      TotalZero(rows[1..], m);
      assert Total([rows[0]], m) == Key(rows[0], m);
    }
  }

  /** Dropping rows never raises a total: a filtered view sums to at most its source. */
  lemma {:induction false} TotalOfSubsequence(a: seq<Record>, b: seq<Record>, m: Metric)
    requires IsSubsequence(a, b)
    ensures Total(a, m) <= Total(b, m)
    decreases |b|
  {
    if a == [] {
    } else {
      assert b == [b[0]] + b[1..];
      TotalAppend([b[0]], b[1..], m);
      if a[0] == b[0] && IsSubsequence(a[1..], b[1..]) {
        assert a == [a[0]] + a[1..];
        TotalAppend([a[0]], a[1..], m);
        TotalOfSubsequence(a[1..], b[1..], m);
      } else {
        TotalOfSubsequence(a, b[1..], m);
      }
    }
  }

  lemma TotalSingleton(x: Record, m: Metric)
    ensures Total([x], m) == Key(x, m)
  {
    assert Column([x], m) == [Key(x, m)];
    assert [Key(x, m)][1..] == [];
    assert Sum([Key(x, m)]) == Key(x, m) + Sum([]);
  }

  /** Taking row `k` out of `b`: the rest has its multiset minus that row, and its total minus that row's value. */
  lemma {:induction false} TotalRemoveAt(b: seq<Record>, k: nat, m: Metric)
    requires k < |b|
    ensures multiset(b[..k] + b[k + 1..]) == multiset(b) - multiset{b[k]}
    ensures Total(b, m) == Key(b[k], m) + Total(b[..k] + b[k + 1..], m)
  {
    assert b == b[..k] + [b[k]] + b[k + 1..];
    calc {
      multiset(b);
      multiset(b[..k] + [b[k]] + b[k + 1..]);
      multiset(b[..k]) + multiset{b[k]} + multiset(b[k + 1..]);
      multiset(b[..k] + b[k + 1..]) + multiset{b[k]};
    }
    TotalSingleton(b[k], m);
    TotalAppend(b[..k] + [b[k]], b[k + 1..], m);
    TotalAppend(b[..k], [b[k]], m);
    TotalAppend(b[..k], b[k + 1..], m);
  }

  /** Totals do not depend on row order: permuted rows give the same totals. */
  lemma {:induction false} TotalPermutation(a: seq<Record>, b: seq<Record>, m: Metric)
    requires multiset(a) == multiset(b)
    ensures Total(a, m) == Total(b, m)
    decreases |a|
  {
    if a != [] {
      assert a[0] in multiset(b);
      var k :| 0 <= k < |b| && b[k] == a[0];
      var rest := b[..k] + b[k + 1..];
      TotalRemoveAt(b, k, m);
      assert a == [a[0]] + a[1..];
      assert multiset(a[1..]) == multiset(a) - multiset{a[0]};
      calc {
        Total(a, m);
        Total([a[0]] + a[1..], m);
        { TotalAppend([a[0]], a[1..], m); }
        Total([a[0]], m) + Total(a[1..], m);
        { TotalSingleton(a[0], m); TotalPermutation(a[1..], rest, m); }
        Key(b[k], m) + Total(rest, m);
      }
    }
  }
}
