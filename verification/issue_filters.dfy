/**
 The pure parts of `ReloadFromDisk` and of the status counts: the three
 successive `Where` filters (application, title, open only), the open, closed
 and total counts, and the row index the previous selection is restored to.
 */
module IssueFilters {
  import opened Wrappers
  import opened Text
  import opened Models
  import opened IssueOrder

  /** `a` is `b` with some elements deleted, order kept. */
  predicate IsSubsequence<T(==)>(a: seq<T>, b: seq<T>)
    decreases |b|
  {
    |a| == 0 || (|b| > 0 && ((a[0] == b[0] && IsSubsequence(a[1..], b[1..])) || IsSubsequence(a, b[1..])))
  }

  lemma {:induction false} SubsequenceTransitive<T>(a: seq<T>, b: seq<T>, c: seq<T>)
    requires IsSubsequence(a, b) && IsSubsequence(b, c)
    ensures IsSubsequence(a, c)
    decreases |c|
  {
    if |a| > 0 {
      if IsSubsequence(b, c[1..]) {
        SubsequenceTransitive(a, b, c[1..]);
      } else if a[0] == b[0] && IsSubsequence(a[1..], b[1..]) {
        SubsequenceTransitive(a[1..], b[1..], c[1..]);
      } else {
        SubsequenceTransitive(a, b[1..], c[1..]);
      }
    }
  }

  lemma {:induction false} SubsequenceReflexive<T>(a: seq<T>)
    ensures IsSubsequence(a, a)
    decreases |a|
  {
    if |a| > 0 {
      SubsequenceReflexive(a[1..]);
    }
  }

  lemma {:induction false} SubsequenceElements<T>(a: seq<T>, b: seq<T>)
    requires IsSubsequence(a, b)
    ensures forall i :: 0 <= i < |a| ==> a[i] in b
    decreases |b|
  {
    if |a| > 0 {
      if a[0] == b[0] && IsSubsequence(a[1..], b[1..]) {
        SubsequenceElements(a[1..], b[1..]);
        assert forall i :: 1 <= i < |a| ==> a[i] == a[1..][i - 1];
      } else {
        SubsequenceElements(a, b[1..]);
      }
    }
  }

  /** Filtering a sorted list keeps it sorted. */
  lemma {:induction false} SubsequenceSorted(a: seq<IssueRow>, b: seq<IssueRow>)
    requires IsSubsequence(a, b) && Sorted(b)
    ensures Sorted(a)
    decreases |b|
  {
    if |a| > 0 {
      assert Sorted(b[1..]);
      if a[0] == b[0] && IsSubsequence(a[1..], b[1..]) {
        SubsequenceSorted(a[1..], b[1..]);
        SubsequenceElements(a[1..], b[1..]);
        forall j | 1 <= j < |a|
          ensures SortsBefore(a[0], a[j])
        {
          assert a[j] == a[1..][j - 1];
          var m :| 0 <= m < |b[1..]| && b[1..][m] == a[j];
          assert b[m + 1] == a[j];
        }
        forall i, j | 0 <= i < j < |a|
          ensures SortsBefore(a[i], a[j])
        {
          if i > 0 {
            assert a[i] == a[1..][i - 1] && a[j] == a[1..][j - 1];
          }
        }
      } else {
        SubsequenceSorted(a, b[1..]);
      }
    }
  }

  /** LINQ `Where`: the elements satisfying `p`, in their order, each as
      often as in `s`. */
  function Where<T(==,!new)>(s: seq<T>, p: T -> bool): (r: seq<T>)
    ensures IsSubsequence(r, s)
    ensures forall x :: multiset(r)[x] == if p(x) then multiset(s)[x] else 0
    ensures forall i :: 0 <= i < |r| ==> p(r[i])
    decreases |s|
  {
    if |s| == 0 then []
    else
      assert s == [s[0]] + s[1..];
      if p(s[0]) then [s[0]] + Where(s[1..], p) else Where(s[1..], p)
  }

  /** `Where` only looks at the predicate on the elements of `s`. */
  lemma {:induction false} WhereSame<T(!new)>(s: seq<T>, p: T -> bool, q: T -> bool)
    requires forall i :: 0 <= i < |s| ==> p(s[i]) == q(s[i])
    ensures Where(s, p) == Where(s, q)
    decreases |s|
  {
    if |s| > 0 {
      WhereSame(s[1..], p, q);
    }
  }

  /** The filters the grid shows: `None` means "all". */
  datatype FilterState = FilterState(app: Option<string>, title: Option<string>, onlyOpen: bool)

  /** Independent statement of which rows the grid shows. */
  predicate Matches(x: IssueRow, f: FilterState) {
    && (f.app.Some? ==> EqualsIgnoreCase(x.application, f.app.value))
    && (f.title.Some? ==> EqualsIgnoreCase(x.title, f.title.value))
    && (f.onlyOpen ==> !x.done)
  }

  function HasApplication(app: string): IssueRow -> bool {
    (x: IssueRow) => EqualsIgnoreCase(x.application, app)
  }

  function HasTitle(title: string): IssueRow -> bool {
    (x: IssueRow) => EqualsIgnoreCase(x.title, title)
  }

  function IsOpen(): IssueRow -> bool {
    (x: IssueRow) => !x.done
  }

  /** One optional filter stage: `Where` when the filter is set, else the rows unchanged. */
  function WhereIf<T(==,!new)>(s: seq<T>, on: bool, p: T -> bool): (r: seq<T>)
    ensures IsSubsequence(r, s)
    ensures forall x :: multiset(r)[x] == if !on || p(x) then multiset(s)[x] else 0
    ensures forall i :: 0 <= i < |r| ==> !on || p(r[i])
    ensures !on ==> r == s
  {
    SubsequenceReflexive(s);
    if on then Where(s, p) else s
  }

  /** `ReloadFromDisk`'s filters, applied one after the other to the sorted rows. */
  function FilterIssues(all: seq<IssueRow>, f: FilterState): (shown: seq<IssueRow>)
    ensures IsSubsequence(shown, all)
    ensures forall x :: multiset(shown)[x] == if Matches(x, f) then multiset(all)[x] else 0
    ensures forall i :: 0 <= i < |shown| ==> Matches(shown[i], f)
    ensures f.app.None? && f.title.None? && !f.onlyOpen ==> shown == all
  {
    var byApp := WhereIf(all, f.app.Some?, HasApplication(f.app.GetOr("")));
    var byTitle := WhereIf(byApp, f.title.Some?, HasTitle(f.title.GetOr("")));
    var shown := WhereIf(byTitle, f.onlyOpen, IsOpen());
    SubsequenceTransitive(byTitle, byApp, all);
    SubsequenceTransitive(shown, byTitle, all);
    shown
  }

  /** The grid's rows: the loaded issues in display order, filtered. */
  function GridRows(loaded: seq<IssueRow>, f: FilterState): (shown: seq<IssueRow>)
    ensures Sorted(shown)
    ensures forall x :: multiset(shown)[x] == if Matches(x, f) then multiset(loaded)[x] else 0
    ensures forall i :: 0 <= i < |shown| ==> Matches(shown[i], f)
  {
    var sorted := SortIssues(loaded);
    var shown := FilterIssues(sorted, f);
    SubsequenceSorted(shown, sorted);
    shown
  }

  function CountOpen(rows: seq<IssueRow>): nat {
    if |rows| == 0 then 0 else (if rows[0].done then 0 else 1) + CountOpen(rows[1..])
  }

  function CountDone(rows: seq<IssueRow>): nat {
    if |rows| == 0 then 0 else (if rows[0].done then 1 else 0) + CountDone(rows[1..])
  }

  lemma {:induction false} OpenPlusDone(rows: seq<IssueRow>)
    ensures CountOpen(rows) + CountDone(rows) == |rows|
  {
    if |rows| > 0 {
      OpenPlusDone(rows[1..]);
    }
  }

  /** The "only open" filter shows as many rows as are counted open. */
  lemma {:induction false} OpenFilterCount(rows: seq<IssueRow>)
    ensures |Where(rows, IsOpen())| == CountOpen(rows)
  {
    if |rows| > 0 {
      OpenFilterCount(rows[1..]);
    }
  }

  datatype StatusCounts = StatusCounts(total: int, open: int, closed: int)

  /** The counts of the status strip. */
  function Tally(rows: seq<IssueRow>): (c: StatusCounts)
    ensures c.total == |rows|
    ensures 0 <= c.open <= c.total
    ensures c.closed == CountDone(rows)
    ensures c.open == |FilterIssues(rows, FilterState(None, None, true))|
  {
    OpenPlusDone(rows);
    OpenFilterCount(rows);
    var open := CountOpen(rows);
    StatusCounts(|rows|, open, |rows| - open)
  }

  /** Index of the first row with the given id, or -1 (`FindIndex`). */
  function IndexOfId(rows: seq<IssueRow>, id: string): (r: int)
    ensures -1 <= r < |rows|
    ensures r >= 0 ==> rows[r].id == id
    ensures forall j :: 0 <= j < |rows| && (r < 0 || j < r) ==> rows[j].id != id
  {
    if |rows| == 0 then -1
    else if rows[0].id == id then 0
    else
      var r := IndexOfId(rows[1..], id);
      if r < 0 then -1 else r + 1
  }

  /** The grid row selected again after a reload: the first shown row with the
      kept id, when an id was kept and is still shown. */
  function SelectionAfterReload(shown: seq<IssueRow>, keepId: Option<string>): (r: Option<nat>)
    ensures r.Some? ==> keepId.Some? && r.value < |shown| && shown[r.value].id == keepId.value
    ensures r.Some? ==> forall j :: 0 <= j < r.value ==> shown[j].id != keepId.value
    ensures r.None? <==> IsNullOrWhiteSpace(keepId) || forall j :: 0 <= j < |shown| ==> shown[j].id != keepId.value
  {
    if IsNullOrWhiteSpace(keepId) then None
    else
      var idx := IndexOfId(shown, keepId.value);
      if 0 <= idx < |shown| then Some(idx) else None
  }
}
