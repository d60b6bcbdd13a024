/**
 * The detail panel's lookup: the names offered for detail (the view's
 * distinct names in first-occurrence order) and the first row of the view
 * that carries the picked name.
 */
module Detail {
  import opened Claims

  /** `Series.unique()`: each value once, in order of first occurrence. */
  function Distinct(s: seq<string>): (r: seq<string>)
    ensures forall x :: x in r <==> x in s
    ensures forall i, j :: 0 <= i < j < |r| ==> r[i] != r[j]
  {
    if s == [] then []
    else
      var d := Distinct(s[..|s| - 1]);
      assert s == s[..|s| - 1] + [s[|s| - 1]];
      if s[|s| - 1] in d then d else d + [s[|s| - 1]]
  }

  /** The position of the first `x` in `s`. */
  function FirstIndex(s: seq<string>, x: string): (k: nat)
    requires x in s
    ensures k < |s| && s[k] == x
    ensures forall j :: 0 <= j < k ==> s[j] != x
  {
    if s[0] == x then 0 else 1 + FirstIndex(s[1..], x)
  }

  lemma {:induction false} FirstIndexOfPrefix(s: seq<string>, n: nat, x: string)
    requires n <= |s| && x in s[..n]
    ensures FirstIndex(s, x) == FirstIndex(s[..n], x)
  {
    var k := FirstIndex(s[..n], x);
    var f := FirstIndex(s, x);
    assert s[k] == x;
  }

  /** `Distinct` lists values in the order in which they first occur. */
  lemma {:induction false} DistinctKeepsFirstOccurrenceOrder(s: seq<string>)
    ensures forall i, j :: 0 <= i < j < |Distinct(s)| ==>
              FirstIndex(s, Distinct(s)[i]) < FirstIndex(s, Distinct(s)[j])
  {
    if s != [] {
      var n := |s| - 1;
      var pre := s[..n];
      var d := Distinct(pre);
      DistinctKeepsFirstOccurrenceOrder(pre);
      assert s == pre + [s[n]];
      forall x | x in d ensures FirstIndex(s, x) == FirstIndex(pre, x) && FirstIndex(pre, x) < n {
        FirstIndexOfPrefix(s, n, x);
      }
      if s[n] !in d {
        assert FirstIndex(s, s[n]) == n;
        var r := d + [s[n]];
        forall i, j | 0 <= i < j < |r| ensures FirstIndex(s, r[i]) < FirstIndex(s, r[j]) {
          assert r[i] == d[i] && r[i] in d;
          if j < |d| {
            assert r[j] == d[j] && r[j] in d;
          }
        }
      } else {
        forall i, j | 0 <= i < j < |d| ensures FirstIndex(s, d[i]) < FirstIndex(s, d[j]) {
          assert d[i] in d && d[j] in d;
        }
      }
    }
  }

  /** The detail selectbox's options: `view["상병명"].unique().tolist()`. */
  function DetailOptions(view: seq<Record>): (names: seq<string>)
    ensures forall n :: n in names <==> exists r :: r in view && r.name == n
    ensures forall i, j :: 0 <= i < j < |names| ==> names[i] != names[j]
  {
    var names := Distinct(Names(view));
    assert forall n :: n in Names(view) <==> exists r :: r in view && r.name == n by {
      forall n ensures n in Names(view) <==> exists r :: r in view && r.name == n {
        if n in Names(view) {
          var i :| 0 <= i < |view| && Names(view)[i] == n;
          assert view[i] in view;
        }
        if exists r :: r in view && r.name == n {
          var r :| r in view && r.name == n;
          var i :| 0 <= i < |view| && view[i] == r;
          assert Names(view)[i] == n;
        }
      }
    }
    names
  }

  /**
   * `view[view["상병명"] == pick].iloc[0]`: the first row of the view with
   * the picked name. The pick must be one of the offered names; on an empty
   * view there is none and the source fails with an index error.
   */
  function DetailRow(view: seq<Record>, pick: string): (row: Record)
    requires pick in DetailOptions(view)
    ensures row.name == pick
    ensures exists k :: 0 <= k < |view| && view[k] == row && forall j :: 0 <= j < k ==> view[j].name != pick
  {
    view[FirstIndex(Names(view), pick)]
  }

  /** The selectbox starts on its first option, the view's first name, whose detail is the view's first row. */
  lemma DefaultPickIsFirstRow(view: seq<Record>)
    requires view != []
    ensures |DetailOptions(view)| > 0 && DetailOptions(view)[0] == view[0].name
    ensures DetailRow(view, view[0].name) == view[0]
  {
    var names := Names(view);
    var d := DetailOptions(view);
    assert view[0] in view;
    DistinctKeepsFirstOccurrenceOrder(names);
    assert FirstIndex(names, view[0].name) == 0;
    assert view[0].name in d;
  }

  datatype Option<T> = None | Some(value: T)

  /**
   * The detail selectbox's value: the option at the position the user
   * chose, and `None` when there is nothing to offer.
   */
  function Selectbox(options: seq<string>, choice: nat): (v: Option<string>)
    ensures v.None? <==> options == []
    ensures v.Some? ==> v.value in options
  {
    if options == [] then None else Some(options[choice % |options|])
  }

  /** What the source's lookup does: show a row, or raise an index error. */
  datatype Lookup = Shown(row: Record) | IndexError

  /**
   * The lookup as written: filter the view on the picked value and take the
   * first row. A `None` pick equals no name, the filtered frame is empty and
   * `iloc[0]` raises.
   */
  function DetailLookupAsWritten(view: seq<Record>, pick: Option<string>): (res: Lookup)
    ensures res.Shown? <==> pick.Some? && exists r :: r in view && r.name == pick.value
    ensures res.Shown? ==> res.row.name == pick.value && res.row in view
    ensures res.Shown? ==> exists k :: 0 <= k < |view| && view[k] == res.row && forall j :: 0 <= j < k ==> view[j].name != pick.value
  {
    if pick.Some? && pick.value in DetailOptions(view) then Shown(DetailRow(view, pick.value)) else IndexError
  }

  /** An empty view offers no name, and the lookup as written then fails, whatever the user does. */
  lemma EmptyViewDetailFails(choice: nat)
    ensures Selectbox(DetailOptions([]), choice) == None
    ensures DetailLookupAsWritten([], Selectbox(DetailOptions([]), choice)) == IndexError
  {
  }

  /** The guarded lookup: no detail when nothing is picked, otherwise the first row with the picked name. */
  function DetailLookup(view: seq<Record>, pick: Option<string>): (res: Option<Record>)
    requires pick.Some? ==> pick.value in DetailOptions(view)
    ensures res.None? <==> pick.None?
    ensures res.Some? ==> res.value.name == pick.value && res.value in view
    ensures res.Some? ==> exists k :: 0 <= k < |view| && view[k] == res.value && forall j :: 0 <= j < k ==> view[j].name != pick.value
  {
    if pick.None? then None else Some(DetailRow(view, pick.value))
  }

  /**
   * Fed by its selectbox, the guarded lookup shows nothing exactly when the
   * view is empty, and otherwise the row the lookup as written shows; the
   * lookup as written fails exactly when the view is empty.
   */
  lemma DetailLookupTotal(view: seq<Record>, choice: nat)
    ensures var pick := Selectbox(DetailOptions(view), choice);
            && (DetailLookup(view, pick).None? <==> view == [])
            && (DetailLookupAsWritten(view, pick).IndexError? <==> view == [])
            && (view != [] ==> DetailLookupAsWritten(view, pick) == Shown(DetailLookup(view, pick).value))
  {
    if view != [] {
      assert view[0] in view;
    }
  }
}
