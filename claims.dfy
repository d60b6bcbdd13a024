/**
 * The claims table: one record per (year, disease) with five non-negative
 * integer measures, the metrics a user can rank by, and column access.
 */
module Claims {
  import opened Sequences

  /**
   * One row of the dataset. Columns in file order: 진료년도 (year), 상병명
   * (disease name), 환자수 (patients), 명세서청구건수 (claims), 입내원일수
   * (visit days), 보험자부담금(선별포함) (insurer-paid amount) and
   * 요양급여비용총액(선별포함) (total cost).
   */
  datatype Record = Record(
    year: int,
    name: string,
    patients: nat,
    claims: nat,
    visitDays: nat,
    insurerPaid: nat,
    totalCost: nat)

  /** The five numeric columns a user can rank or normalise by. */
  datatype Metric = Patients | TotalCost | InsurerPaid | ClaimCount | VisitDays

  /** The metric selectbox's options, in the order offered; index 0 is the default. */
  const MetricOptions: seq<Metric> := [Patients, TotalCost, InsurerPaid, ClaimCount, VisitDays]

  /** A closed slider interval: a value is in it when `lo <= value <= hi`. */
  datatype Range = Range(lo: int, hi: int)

  /** pandas `Series.between(lo, hi)`: inclusive on both ends. */
  predicate InRange(x: int, r: Range)
  {
    r.lo <= x <= r.hi
  }

  /** The value of column `m` in row `r`. */
  function Key(r: Record, m: Metric): nat
  {
    match m
    case Patients => r.patients
    case TotalCost => r.totalCost
    case InsurerPaid => r.insurerPaid
    case ClaimCount => r.claims
    case VisitDays => r.visitDays
  }

  /** Column `m` of `rows`, row by row. */
  function Column(rows: seq<Record>, m: Metric): (c: seq<nat>)
    ensures |c| == |rows|
    ensures forall i :: 0 <= i < |rows| ==> c[i] == Key(rows[i], m)
  {
    if rows == [] then [] else [Key(rows[0], m)] + Column(rows[1..], m)
  }

  /** The disease-name column of `rows`. */
  function Names(rows: seq<Record>): (c: seq<string>)
    ensures |c| == |rows|
    ensures forall i :: 0 <= i < |rows| ==> c[i] == rows[i].name
  {
    if rows == [] then [] else [rows[0].name] + Names(rows[1..])
  }

  /** The year column of `rows`. */
  function Years(rows: seq<Record>): (c: seq<int>)
    ensures |c| == |rows|
    ensures forall i :: 0 <= i < |rows| ==> c[i] == rows[i].year
  {
    if rows == [] then [] else [rows[0].year] + Years(rows[1..])
  }

  /** `df[df["진료년도"] == year]`: the rows of one year, in dataset order. */
  function RowsOfYear(ds: seq<Record>, year: int): (rows: seq<Record>)
    ensures |rows| <= |ds|
    ensures forall r :: r in rows <==> r in ds && r.year == year
  {
    Where(ds, (r: Record) => r.year == year)
  }

  /**
   * `(int(col.min()), int(col.max()))` over a non-empty set of rows: the
   * tightest closed interval holding every value of column `m`.
   */
  function ColumnBounds(rows: seq<Record>, m: Metric): (b: Range)
    requires rows != []
    ensures forall r :: r in rows ==> InRange(Key(r, m), b)
    ensures exists r :: r in rows && Key(r, m) == b.lo
    ensures exists r :: r in rows && Key(r, m) == b.hi
  {
    var c := Column(rows, m);
    var b := Range(MinOf(c), MaxOf(c));
    assert forall r :: r in rows ==> Key(r, m) in c by {
      forall r | r in rows ensures Key(r, m) in c {
        var i :| 0 <= i < |rows| && rows[i] == r;
        assert c[i] == Key(r, m);
      }
    }
    var i :| 0 <= i < |c| && c[i] == b.lo;
    assert rows[i] in rows;
    var j :| 0 <= j < |c| && c[j] == b.hi;
    assert rows[j] in rows;
    b
  }
}
