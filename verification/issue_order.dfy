/**
 The display order of `ReloadFromDisk`: by application, then by title, both
 compared with `StringComparer.OrdinalIgnoreCase`, then newest first by
 creation time. `OrderBy`/`ThenBy` is a sort; here it is an insertion sort
 over the loaded rows.
 */
module IssueOrder {
  import opened Text
  import opened Models

  /** `x` may be listed before `y`. */
  predicate SortsBefore(x: IssueRow, y: IssueRow) {
    || LessIgnoreCase(x.application, y.application)
    || (EqualsIgnoreCase(x.application, y.application)
        && (|| LessIgnoreCase(x.title, y.title)
            || (EqualsIgnoreCase(x.title, y.title) && x.createdUtc >= y.createdUtc)))
  }

  lemma SortsBeforeTotal(x: IssueRow, y: IssueRow)
    ensures SortsBefore(x, y) || SortsBefore(y, x)
  {
    OrdinalLessTrichotomy(ToUpper(x.application), ToUpper(y.application));
    OrdinalLessTrichotomy(ToUpper(x.title), ToUpper(y.title));
  }

  lemma SortsBeforeTransitive(x: IssueRow, y: IssueRow, z: IssueRow)
    requires SortsBefore(x, y) && SortsBefore(y, z)
    ensures SortsBefore(x, z)
  {
    var xa, ya, za := ToUpper(x.application), ToUpper(y.application), ToUpper(z.application);
    var xt, yt, zt := ToUpper(x.title), ToUpper(y.title), ToUpper(z.title);
    if OrdinalLess(xa, ya) && OrdinalLess(ya, za) {
      OrdinalLessTransitive(xa, ya, za);
    } else if xa == ya && ya == za && OrdinalLess(xt, yt) && OrdinalLess(yt, zt) {
      OrdinalLessTransitive(xt, yt, zt);
    }
  }

  ghost predicate Sorted(s: seq<IssueRow>) {
    forall i, j :: 0 <= i < j < |s| ==> SortsBefore(s[i], s[j])
  }

  /** Inserts `x` before the first row it may precede. */
  function Insert(x: IssueRow, s: seq<IssueRow>): (r: seq<IssueRow>)
    requires Sorted(s)
    ensures Sorted(r)
    ensures multiset(r) == multiset(s) + multiset{x}
  {
    if |s| == 0 then [x]
    else if SortsBefore(x, s[0]) then
      InsertFirstSorted(x, s);
      [x] + s
    else
      var t := Insert(x, s[1..]);
      SortsBeforeTotal(x, s[0]);
      assert s == [s[0]] + s[1..];
      ConsSorted(s[0], t, x, s[1..]);
      [s[0]] + t
  }

  lemma InsertFirstSorted(x: IssueRow, s: seq<IssueRow>)
    requires Sorted(s) && |s| > 0 && SortsBefore(x, s[0])
    ensures Sorted([x] + s)
  {
    forall k | 0 <= k < |s|
      ensures SortsBefore(x, s[k])
    {
      if k > 0 {
        SortsBeforeTransitive(x, s[0], s[k]);
      }
    }
    assert forall j :: 0 < j < |s| + 1 ==> ([x] + s)[j] == s[j - 1];
  }

  /** Prepending a row that may precede everything of a sorted list keeps it sorted. */
  lemma ConsSorted(h: IssueRow, t: seq<IssueRow>, x: IssueRow, rest: seq<IssueRow>)
    requires Sorted(t) && Sorted([h] + rest)
    requires SortsBefore(h, x)
    requires multiset(t) == multiset(rest) + multiset{x}
    ensures Sorted([h] + t)
  {
    forall j | 0 <= j < |t|
      ensures SortsBefore(h, t[j])
    {
      assert t[j] in multiset(t);
      if t[j] != x {
        assert t[j] in multiset(rest);
        var k :| 0 <= k < |rest| && rest[k] == t[j];
        var hr := [h] + rest;
        assert hr[0] == h && hr[k + 1] == rest[k];
        assert SortsBefore(hr[0], hr[k + 1]);
      }
    }
    assert forall j :: 0 < j < |t| + 1 ==> ([h] + t)[j] == t[j - 1];
  }

  /** The rows in display order: sorted, and a permutation of the input. */
  function SortIssues(rows: seq<IssueRow>): (r: seq<IssueRow>)
    ensures Sorted(r)
    ensures multiset(r) == multiset(rows)
    ensures |r| == |rows|
  {
    if |rows| == 0 then []
    else
      assert rows == [rows[0]] + rows[1..];
      Insert(rows[0], SortIssues(rows[1..]))
  }
}
