/**
 * The three panels of the main area, each a function of the dataset and
 * the selection: each rebuilds the filtered view on its own, as the
 * source does, and hands it to the Aggregator, Ranker, Normalizer or
 * detail lookup.
 */
module Dashboard {
  import opened Sequences
  import opened Claims
  import opened Sidebar
  import opened FilterEngine
  import opened Aggregator
  import opened Ranker
  import opened Heatmap
  import opened Detail

  /** Left column: the three summary metrics and the Top-N table. */
  datatype SummaryPanel = SummaryPanel(summary: Summary, top: seq<Record>)

  /** Middle column: the Top-N bar chart rows and the normalised heatmap columns. */
  datatype ChartPanel = ChartPanel(top: seq<Record>, heat: seq<seq<real>>)

  /**
   * Right column: the ranking board, the names offered for detail, what the
   * source's lookup does with the pick (`shown`), and what the guarded
   * lookup shows (`guarded`).
   */
  datatype DetailPanel = DetailPanel(board: seq<Record>, options: seq<string>, shown: Lookup, guarded: Option<Record>)

  /** Every ranked row is a dataset row that matches the selection. */
  lemma RankedRowsMatch(ds: seq<Record>, sel: Selection)
    ensures forall r :: r in Rank(View(ds, sel), sel.metric, sel.sortDesc, sel.topn) ==> r in ds && Matches(sel, r)
  {
    var view := View(ds, sel);
    var top := Rank(view, sel.metric, sel.sortDesc, sel.topn);
    forall r | r in top ensures r in view {
      assert r in multiset(top);
      assert multiset(top)[r] <= multiset(view)[r];
    }
  }

  /**
   * The summary panel: a Top-N table of at most N matching rows, and totals
   * that never exceed the whole dataset's.
   */
  function SummaryPanelOf(ds: seq<Record>, sel: Selection): (p: SummaryPanel)
    ensures |p.top| <= sel.topn
    ensures forall r :: r in p.top ==> r in ds && Matches(sel, r)
    ensures p.summary.totalPatients <= Total(ds, Patients) && p.summary.totalCost <= Total(ds, TotalCost)
  {
    var view := View(ds, sel);
    ViewSpec(ds, sel);
    TotalOfSubsequence(view, ds, Patients);
    TotalOfSubsequence(view, ds, TotalCost);
    RankedRowsMatch(ds, sel);
    SummaryPanel(Summarize(view), Rank(view, sel.metric, sel.sortDesc, sel.topn))
  }

  /**
   * The chart panel: at most N matching rows, and one heatmap column per
   * heat column with one value in [0, 1] per ranked row.
   */
  function ChartPanelOf(ds: seq<Record>, sel: Selection): (p: ChartPanel)
    ensures |p.top| <= sel.topn
    ensures forall r :: r in p.top ==> r in ds && Matches(sel, r)
    ensures |p.heat| == |HeatColumns|
    ensures forall k :: 0 <= k < |p.heat| ==> |p.heat[k]| == |p.top|
    ensures forall k, i :: 0 <= k < |p.heat| && 0 <= i < |p.heat[k]| ==> 0.0 <= p.heat[k][i] <= 1.0
  {
    var view := View(ds, sel);
    var top := Rank(view, sel.metric, sel.sortDesc, sel.topn);
    RankedRowsMatch(ds, sel);
    ChartPanel(top, NormalizedFrame(top))
  }

  /**
   * The detail panel; `choice` is the position the user picks in the detail
   * selectbox. The lookup as written raises exactly when the view is empty
   * and otherwise shows a matching row; the guarded lookup shows nothing
   * exactly then, and otherwise the same row.
   */
  function DetailPanelOf(ds: seq<Record>, sel: Selection, choice: nat): (p: DetailPanel)
    ensures |p.board| <= sel.topn
    ensures forall r :: r in p.board ==> r in ds && Matches(sel, r)
    ensures forall n :: n in p.options ==> exists r :: r in ds && Matches(sel, r) && r.name == n
    ensures p.shown.IndexError? <==> View(ds, sel) == []
    ensures p.shown.Shown? ==> p.shown.row in ds && Matches(sel, p.shown.row)
    ensures p.guarded.None? <==> View(ds, sel) == []
    ensures p.guarded.Some? ==> p.shown == Shown(p.guarded.value)
  {
    var view := View(ds, sel);
    var options := DetailOptions(view);
    var pick := Selectbox(options, choice);
    RankedRowsMatch(ds, sel);
    DetailLookupTotal(view, choice);
    DetailPanel(Rank(view, sel.metric, sel.sortDesc, sel.topn), options,
                DetailLookupAsWritten(view, pick), DetailLookup(view, pick))
  }

  /**
   * The three panels rank the same rows: the summary table, the bar chart
   * and the ranking board show one Top-N, and the heatmap normalises it.
   */
  lemma PanelsAgree(ds: seq<Record>, sel: Selection, choice: nat)
    ensures SummaryPanelOf(ds, sel).top == ChartPanelOf(ds, sel).top == DetailPanelOf(ds, sel, choice).board
    ensures ChartPanelOf(ds, sel).heat == NormalizedFrame(SummaryPanelOf(ds, sel).top)
  {
  }

  /**
   * A patient range that excludes every row of the chosen year: the summary
   * and chart panels come out empty without a fault (totals and average 0,
   * no ranked rows, empty heatmap columns), the detail selectbox has nothing
   * to offer, and the source's lookup then raises an index error, where the
   * guarded lookup shows nothing.
   */
  lemma NoRowInPatientRange(ds: seq<Record>, sel: Selection, choice: nat)
    requires forall r :: r in ds && r.year == sel.year ==> !InRange(r.patients, sel.patientRange)
    ensures SummaryPanelOf(ds, sel).summary == Summary(0, 0, 0)
    ensures SummaryPanelOf(ds, sel).top == [] && ChartPanelOf(ds, sel).top == [] && DetailPanelOf(ds, sel, choice).board == []
    ensures forall k :: 0 <= k < |HeatColumns| ==> ChartPanelOf(ds, sel).heat[k] == []
    ensures DetailPanelOf(ds, sel, choice).options == []
    ensures DetailPanelOf(ds, sel, choice).shown == IndexError
    ensures DetailPanelOf(ds, sel, choice).guarded == None
  {
    var view := View(ds, sel);
    assert forall i :: 0 <= i < |view| ==> view[i] in view;
  }

  /** Membership in a two-name disease selection. */
  lemma PairMember(x: string, a: string, b: string)
    ensures x in [a, b] <==> x == a || x == b
  {
  }

  /**
   * Two diseases chosen, ranking by patient count, Top 1, descending, with
   * the sliders at the year's full range: the single ranked row is one of
   * the two diseases in that year, with the largest patient count among
   * them.
   */
  lemma TopOneOfTwoDiseases(ds: seq<Record>, sel: Selection, a: string, b: string)
    requires HasYear(ds, sel.year)
    requires sel.diseases == [a, b] && sel.metric == Patients && sel.topn == 1 && sel.sortDesc
    requires sel.patientRange == DefaultPatientRange(ds, sel.year)
    requires sel.costRange == DefaultCostRange(ds, sel.year)
    requires exists r :: r in ds && r.year == sel.year && (r.name == a || r.name == b)
    ensures |SummaryPanelOf(ds, sel).top| == 1
    ensures var top := SummaryPanelOf(ds, sel).top[0];
            && top in ds && top.year == sel.year && (top.name == a || top.name == b)
            && forall r :: r in ds && r.year == sel.year && (r.name == a || r.name == b) ==> r.patients <= top.patients
  {
    var view := View(ds, sel);
    DefaultRangesViewMembers(ds, sel);
    assert sel.diseases == [a, b];
    var r :| r in ds && r.year == sel.year && (r.name == a || r.name == b);
    assert r.name in sel.diseases;
    assert r in view;
    TopOneIsMaximum(view, Patients);
    var top := Rank(view, Patients, true, 1);
    assert SummaryPanelOf(ds, sel).top == top;
    assert top[0] in view;
    PairMember(top[0].name, a, b);
    forall x | x in ds && x.year == sel.year && (x.name == a || x.name == b)
      ensures x.patients <= top[0].patients
    {
      assert x.name in sel.diseases;
      assert x in view;
    }
  }
}
