/**
 * The sidebar: the option lists it offers, the slider defaults it derives
 * from the chosen year, and the selection record every panel reads back
 * (the model of `st.session_state` after the sidebar's `update`).
 */
module Sidebar {
  import opened Sequences
  import opened Ordering
  import opened Text
  import opened Claims

  /**
   * The selection state written at the end of the sidebar. The metric label
   * is not a separate field: each label maps to the column of the same name.
   */
  datatype Selection = Selection(
    year: int,
    theme: string,          // colour theme; no effect on any data
    diseases: seq<string>,  // empty means "no disease filter"
    metric: Metric,
    topn: nat,
    sortDesc: bool,
    patientRange: Range,
    costRange: Range,
    searchKw: string)

  /** `sorted(df["진료년도"].unique())`: the year selectbox's options. */
  function YearOptions(ds: seq<Record>): (r: seq<int>)
    ensures StrictlySorted(r, IntLess)
    ensures forall y :: y in r <==> exists row :: row in ds && row.year == y
  {
    IntLessIsStrictTotalOrder();
    var r := SortedUnique(Years(ds), IntLess);
    assert forall y :: y in Years(ds) <==> exists row :: row in ds && row.year == y by {
      forall y ensures y in Years(ds) <==> exists row :: row in ds && row.year == y {
        if y in Years(ds) {
          var i :| 0 <= i < |ds| && Years(ds)[i] == y;
          assert ds[i] in ds;
        }
        if exists row :: row in ds && row.year == y {
          var row :| row in ds && row.year == y;
          var i :| 0 <= i < |ds| && ds[i] == row;
          assert Years(ds)[i] == y;
        }
      }
    }
    r
  }

  /** `sorted(df_year0["상병명"].unique())`: every disease name of one year, sorted and distinct. */
  function DiseaseNames(ds: seq<Record>, year: int): (r: seq<string>)
    ensures StrictlySorted(r, LexLess)
    ensures forall i, j :: 0 <= i < j < |r| ==> r[i] != r[j]
    ensures forall n :: n in r <==> exists row :: row in ds && row.year == year && row.name == n
  {
    LexLessIsStrictTotalOrder();
    var rows := RowsOfYear(ds, year);
    var r := SortedUnique(Names(rows), LexLess);
    assert forall n :: n in Names(rows) <==> exists row :: row in rows && row.name == n by {
      forall n ensures n in Names(rows) <==> exists row :: row in rows && row.name == n {
        if n in Names(rows) {
          var i :| 0 <= i < |rows| && Names(rows)[i] == n;
          assert rows[i] in rows;
        }
        if exists row :: row in rows && row.name == n {
          var row :| row in rows && row.name == n;
          var i :| 0 <= i < |rows| && rows[i] == row;
          assert Names(rows)[i] == n;
        }
      }
    }
    r
  }

  /** Whether `name` passes the search box: an empty box passes everything. */
  predicate MatchesSearch(name: string, kw: string)
  {
    kw == "" || Contains(name, Strip(kw))
  }

  /**
   * The multiselect's options: `[d for d in names if kw.strip() in d] if kw
   * else names`. A subsequence of `names` that keeps exactly the names
   * passing the search.
   */
  function SearchOptions(names: seq<string>, kw: string): (r: seq<string>)
    ensures IsSubsequence(r, names)
    ensures forall d :: d in r <==> d in names && MatchesSearch(d, kw)
    ensures forall d :: multiset(r)[d] == if MatchesSearch(d, kw) then multiset(names)[d] else 0
    ensures kw == "" ==> r == names
  {
    if kw == "" then
      assert IsSubsequence(names, names) by { WhereAll(names, (d: string) => true); WhereIsSubsequence(names, (d: string) => true); }
      names
    else
      WhereIsSubsequence(names, (d: string) => Contains(d, Strip(kw)));
      WhereCounts(names, (d: string) => Contains(d, Strip(kw)));
      Where(names, (d: string) => Contains(d, Strip(kw)))
  }

  /**
   * The disease options offered for a year and search keyword: sorted,
   * duplicate-free, drawn from that year's names, and each containing the
   * stripped keyword when the keyword is non-empty.
   */
  function DiseaseOptions(ds: seq<Record>, year: int, kw: string): (r: seq<string>)
    ensures StrictlySorted(r, LexLess)
    ensures forall i, j :: 0 <= i < j < |r| ==> r[i] != r[j]
    ensures forall n :: n in r ==> exists row :: row in ds && row.year == year && row.name == n
    ensures kw != "" ==> forall n :: n in r ==> Contains(n, Strip(kw))
    ensures forall n :: (exists row :: row in ds && row.year == year && row.name == n) && MatchesSearch(n, kw) ==> n in r
    ensures kw == "" ==> r == DiseaseNames(ds, year)
  {
    var names := DiseaseNames(ds, year);
    var r := SearchOptions(names, kw);
    SubsequenceStrictlySorted(r, names, LexLess);
    LexLessIsStrictTotalOrder();
    r
  }

  /**
   * A keyword made only of whitespace is non-empty, so the comprehension
   * runs, but it strips to "" and "" occurs in every name: all names stay.
   */
  lemma BlankKeywordOffersAll(names: seq<string>, kw: string)
    requires forall k :: 0 <= k < |kw| ==> IsSpace(kw[k])
    ensures SearchOptions(names, kw) == names
  {
    if kw != "" {
      StripBlank(kw);
      forall d | d in names ensures Contains(d, Strip(kw)) {
        ContainsEmpty(d);
      }
      WhereAll(names, (d: string) => Contains(d, Strip(kw)));
    }
  }

  /** Whether the year occurs in the dataset, so that its slider bounds exist. */
  predicate HasYear(ds: seq<Record>, year: int)
  {
    exists row :: row in ds && row.year == year
  }

  /**
   * The patient-count slider's bounds and default value: the chosen year's
   * minimum and maximum patient count. Undefined for a year without rows,
   * where the source's `int(NaN)` fails.
   */
  function DefaultPatientRange(ds: seq<Record>, year: int): (b: Range)
    requires HasYear(ds, year)
    ensures forall r :: r in ds && r.year == year ==> InRange(r.patients, b)
    ensures exists r :: r in ds && r.year == year && r.patients == b.lo
    ensures exists r :: r in ds && r.year == year && r.patients == b.hi
  {
    var row :| row in ds && row.year == year;
    assert row in RowsOfYear(ds, year);
    ColumnBounds(RowsOfYear(ds, year), Patients)
  }

  /** The total-cost slider's bounds and default value, likewise. */
  function DefaultCostRange(ds: seq<Record>, year: int): (b: Range)
    requires HasYear(ds, year)
    ensures forall r :: r in ds && r.year == year ==> InRange(r.totalCost, b)
    ensures exists r :: r in ds && r.year == year && r.totalCost == b.lo
    ensures exists r :: r in ds && r.year == year && r.totalCost == b.hi
  {
    var row :| row in ds && row.year == year;
    assert row in RowsOfYear(ds, year);
    ColumnBounds(RowsOfYear(ds, year), TotalCost)
  }

  /**
   * The selection a fresh session starts from: the first (smallest) year,
   * the first theme, no disease chosen, an empty search box, the first
   * metric, Top 10, descending order and the year's full slider ranges.
   */
  function DefaultSelection(ds: seq<Record>): (sel: Selection)
    requires ds != []
    ensures HasYear(ds, sel.year)
    ensures forall r :: r in ds ==> sel.year <= r.year
    ensures sel.diseases == [] && sel.searchKw == ""
    ensures sel.metric == Patients && sel.topn == 10 && sel.sortDesc
    ensures sel.patientRange == DefaultPatientRange(ds, sel.year)
    ensures sel.costRange == DefaultCostRange(ds, sel.year)
  {
    var years := YearOptions(ds);
    assert ds[0] in ds;
    assert years != [] by { assert ds[0].year in years; }
    var year := years[0];
    assert year in years;
    assert forall r :: r in ds ==> year <= r.year by {
      forall r | r in ds ensures year <= r.year {
        assert r.year in years;
        var k :| 0 <= k < |years| && years[k] == r.year;
        assert k == 0 || IntLess(years[0], years[k]);
      }
    }
    Selection(year, "blues", [], MetricOptions[0], 10, true,
              DefaultPatientRange(ds, year), DefaultCostRange(ds, year), "")
  }

  /**
   * The widgets only offer values from their option lists: the year is one
   * of the dataset's years and every chosen disease is offered for that
   * year and keyword.
   */
  predicate Offered(ds: seq<Record>, sel: Selection)
  {
    && sel.year in YearOptions(ds)
    && forall d :: d in sel.diseases ==> d in DiseaseOptions(ds, sel.year, sel.searchKw)
  }

  /** Every disease a user can have chosen names a row of the chosen year. */
  lemma OfferedDiseasesOccur(ds: seq<Record>, sel: Selection)
    requires Offered(ds, sel)
    ensures HasYear(ds, sel.year)
    ensures forall d :: d in sel.diseases ==> exists row :: row in ds && row.year == sel.year && row.name == d
  {
  }
}
