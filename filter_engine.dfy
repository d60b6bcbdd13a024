/**
 * The Filter Engine: the rows every panel works on. The summary, chart and
 * detail panels each rebuild this view with the same three statements
 * (year, then disease set, then both ranges); `View` is that one sequence
 * of statements, so the panels agree on it by construction.
 */
module FilterEngine {
  import opened Sequences
  import opened Claims
  import opened Sidebar

  /** `df[df["상병명"].isin(diseases)]` when the selection is non-empty; no filter otherwise. */
  function ByDiseases(rows: seq<Record>, diseases: seq<string>): (r: seq<Record>)
    ensures |r| <= |rows|
    ensures forall x :: x in r <==> x in rows && (|diseases| == 0 || x.name in diseases)
    ensures |diseases| == 0 ==> r == rows
  {
    if |diseases| > 0 then Where(rows, (r: Record) => r.name in diseases) else rows
  }

  /** Both inclusive range masks, combined with `&`. */
  function ByRanges(rows: seq<Record>, patientRange: Range, costRange: Range): (r: seq<Record>)
    ensures |r| <= |rows|
    ensures forall x :: x in r <==> x in rows && InRange(x.patients, patientRange) && InRange(x.totalCost, costRange)
  {
    Where(rows, (r: Record) => InRange(r.patients, patientRange) && InRange(r.totalCost, costRange))
  }

  /** The filtered view, built in the source's order of steps. */
  function View(ds: seq<Record>, sel: Selection): (view: seq<Record>)
    ensures |view| <= |ds|
    ensures forall r :: r in view <==> r in ds && Matches(sel, r)
  {
    ByRanges(ByDiseases(RowsOfYear(ds, sel.year), sel.diseases), sel.patientRange, sel.costRange)
  }

  /** The conjunction of all filter conditions for one row. */
  predicate Matches(sel: Selection, r: Record)
  {
    && r.year == sel.year
    && (|sel.diseases| == 0 || r.name in sel.diseases)
    && InRange(r.patients, sel.patientRange)
    && InRange(r.totalCost, sel.costRange)
  }

  /** The three-step pipeline equals a single mask with the conjunction of the conditions. */
  lemma ViewIsSingleMask(ds: seq<Record>, sel: Selection)
    ensures View(ds, sel) == Where(ds, (r: Record) => Matches(sel, r))
  {
    var byYear := (r: Record) => r.year == sel.year;
    var byName := (r: Record) => r.name in sel.diseases;
    var byRange := (r: Record) => InRange(r.patients, sel.patientRange) && InRange(r.totalCost, sel.costRange);
    var matches := (r: Record) => Matches(sel, r);
    if |sel.diseases| > 0 {
      var both := (r: Record) => byYear(r) && byName(r);
      WhereFuse(ds, byYear, byName, both);
      WhereFuse(ds, both, byRange, matches);
    } else {
      WhereFuse(ds, byYear, byRange, matches);
    }
  }

  /**
   * The view is an order-preserving subsequence of the dataset, every kept
   * row satisfies the selection, and every row left out fails it: each row
   * is kept exactly as often as it occurs when it matches.
   */
  lemma ViewSpec(ds: seq<Record>, sel: Selection)
    ensures IsSubsequence(View(ds, sel), ds)
    ensures forall r :: r in View(ds, sel) ==> Matches(sel, r)
    ensures forall r :: multiset(View(ds, sel))[r] == if Matches(sel, r) then multiset(ds)[r] else 0
  {
    ViewIsSingleMask(ds, sel);
    WhereIsSubsequence(ds, (r: Record) => Matches(sel, r));
    WhereCounts(ds, (r: Record) => Matches(sel, r));
  }

  /**
   * An empty disease selection means "every disease": it gives the same view
   * as selecting all of that year's disease names.
   */
  lemma EmptySelectionMeansAll(ds: seq<Record>, sel: Selection)
    requires sel.diseases == []
    ensures View(ds, sel) == View(ds, sel.(diseases := DiseaseNames(ds, sel.year)))
  {
    var names := DiseaseNames(ds, sel.year);
    var rows := RowsOfYear(ds, sel.year);
    forall r | r in rows ensures r.name in names {
      assert r in ds && r.year == sel.year;
    }
    WhereAll(rows, (r: Record) => r.name in names);
  }

  /**
   * With the sliders at their defaults, the year's minimum and maximum, the
   * range masks drop no row of that year.
   */
  lemma DefaultRangesKeepYear(ds: seq<Record>, sel: Selection)
    requires HasYear(ds, sel.year)
    requires sel.patientRange == DefaultPatientRange(ds, sel.year)
    requires sel.costRange == DefaultCostRange(ds, sel.year)
    ensures View(ds, sel) == ByDiseases(RowsOfYear(ds, sel.year), sel.diseases)
  {
    var rows := ByDiseases(RowsOfYear(ds, sel.year), sel.diseases);
    assert forall r :: r in rows ==> r in ds && r.year == sel.year;
    WhereAll(rows, (r: Record) => InRange(r.patients, sel.patientRange) && InRange(r.totalCost, sel.costRange));
  }

  /**
   * With the sliders at their defaults, a row is in the view exactly when it
   * belongs to the chosen year and, if diseases are chosen, to one of them.
   */
  lemma DefaultRangesViewMembers(ds: seq<Record>, sel: Selection)
    requires HasYear(ds, sel.year)
    requires sel.patientRange == DefaultPatientRange(ds, sel.year)
    requires sel.costRange == DefaultCostRange(ds, sel.year)
    ensures forall r :: r in View(ds, sel) <==>
              r in ds && r.year == sel.year && (|sel.diseases| == 0 || r.name in sel.diseases)
  {
    DefaultRangesKeepYear(ds, sel);
  }

  /** A fresh session shows every row of the first year, in dataset order. */
  lemma DefaultSelectionShowsYear(ds: seq<Record>)
    requires ds != []
    ensures View(ds, DefaultSelection(ds)) == RowsOfYear(ds, DefaultSelection(ds).year)
    ensures View(ds, DefaultSelection(ds)) != []
  {
    var sel := DefaultSelection(ds);
    DefaultRangesKeepYear(ds, sel);
    var row :| row in ds && row.year == sel.year;
    assert row in RowsOfYear(ds, sel.year);
  }

  /** Choosing diseases can only remove rows: the view is a subsequence of the unrestricted one. */
  lemma DiseaseSelectionNarrows(ds: seq<Record>, sel: Selection)
    ensures IsSubsequence(View(ds, sel), View(ds, sel.(diseases := [])))
    ensures forall r :: r in View(ds, sel) ==> r in View(ds, sel.(diseases := []))
  {
    var all := sel.(diseases := []);
    ViewIsSingleMask(ds, sel);
    ViewIsSingleMask(ds, all);
    var p := (r: Record) => Matches(all, r);
    var q := (r: Record) => Matches(sel, r);
    WhereFuse(ds, p, q, q);
    WhereIsSubsequence(Where(ds, p), q);
  }
}
