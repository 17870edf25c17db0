/**
 The two filter combo boxes of `UpdateFilterComboBoxes`, `ApplyAppFilter` and
 `ApplyTitleFilter`: per-group counts, the item labels, the selection restored
 after a reload, and the filter read back from a selected item.
 */
module FilterCombos {
  import opened Wrappers
  import opened Text
  import opened Models
  import opened IssueFilters

  /** Which combo: grouping by application or by title. */
  datatype Grouping = ByApplication | ByTitle

  function KeyOf(x: IssueRow, grouping: Grouping): string {
    match grouping
    case ByApplication => x.application
    case ByTitle => x.title
  }

  function InGroup(grouping: Grouping, key: string): IssueRow -> bool {
    (x: IssueRow) => EqualsIgnoreCase(KeyOf(x, grouping), key)
  }

  /** Rows of the group `key` (`g.Count()`). */
  function CountKey(rows: seq<IssueRow>, grouping: Grouping, key: string): nat {
    if |rows| == 0 then 0
    else (if InGroup(grouping, key)(rows[0]) then 1 else 0) + CountKey(rows[1..], grouping, key)
  }

  /** Open rows of the group `key` (`g.Count(x => !x.Done)`). */
  function CountOpenKey(rows: seq<IssueRow>, grouping: Grouping, key: string): nat {
    if |rows| == 0 then 0
    else (if InGroup(grouping, key)(rows[0]) && !rows[0].done then 1 else 0) + CountOpenKey(rows[1..], grouping, key)
  }

  lemma {:induction false} CountKeySnoc(s: seq<IssueRow>, x: IssueRow, grouping: Grouping, key: string)
    ensures CountKey(s + [x], grouping, key)
         == CountKey(s, grouping, key) + (if EqualsIgnoreCase(KeyOf(x, grouping), key) then 1 else 0)
    ensures CountOpenKey(s + [x], grouping, key)
         == CountOpenKey(s, grouping, key) + (if EqualsIgnoreCase(KeyOf(x, grouping), key) && !x.done then 1 else 0)
  {
    if |s| == 0 {
      assert [x][1..] == [];
    } else {
      assert (s + [x])[1..] == s[1..] + [x];
      CountKeySnoc(s[1..], x, grouping, key);
    }
  }

  lemma {:induction false} CountsNone(s: seq<IssueRow>, grouping: Grouping, key: string)
    requires forall j :: 0 <= j < |s| ==> !EqualsIgnoreCase(KeyOf(s[j], grouping), key)
    ensures CountKey(s, grouping, key) == 0 && CountOpenKey(s, grouping, key) == 0
  {
    if |s| > 0 {
      CountsNone(s[1..], grouping, key);
    }
  }

  /** The group count is the size of the filter for that key. */
  lemma {:induction false} CountKeyIsWhere(s: seq<IssueRow>, grouping: Grouping, key: string)
    ensures CountKey(s, grouping, key) == |Where(s, InGroup(grouping, key))|
  {
    if |s| > 0 {
      CountKeyIsWhere(s[1..], grouping, key);
    }
  }

  /** A group never has more open rows than rows. */
  lemma {:induction false} OpenAtMostTotal(rows: seq<IssueRow>, grouping: Grouping, key: string)
    ensures CountOpenKey(rows, grouping, key) <= CountKey(rows, grouping, key)
  {
    if |rows| > 0 {
      OpenAtMostTotal(rows[1..], grouping, key);
    }
  }

  /** One entry of `appStats` / `titleStats`. */
  datatype GroupStat = GroupStat(key: string, total: nat, open: nat)

  /** No two groups share a key up to case. */
  predicate DistinctKeys(groups: seq<GroupStat>) {
    forall a, b :: 0 <= a < b < |groups| ==> !EqualsIgnoreCase(groups[a].key, groups[b].key)
  }

  ghost predicate Covered(groups: seq<GroupStat>, key: string) {
    exists g :: 0 <= g < |groups| && EqualsIgnoreCase(groups[g].key, key)
  }

  /** Index of the first row of the group `key`, or `|rows|`. */
  function FirstInGroup(rows: seq<IssueRow>, grouping: Grouping, key: string): (r: nat)
    ensures r <= |rows|
    ensures r < |rows| ==> EqualsIgnoreCase(KeyOf(rows[r], grouping), key)
    ensures forall j :: 0 <= j < r ==> !EqualsIgnoreCase(KeyOf(rows[j], grouping), key)
  {
    if |rows| == 0 then 0
    else if EqualsIgnoreCase(KeyOf(rows[0], grouping), key) then 0
    else 1 + FirstInGroup(rows[1..], grouping, key)
  }

  /** `FindIndex` with an ordinal-ignore-case key comparison. */
  function FindGroup(groups: seq<GroupStat>, key: string): (r: int)
    ensures -1 <= r < |groups|
    ensures r >= 0 ==> EqualsIgnoreCase(groups[r].key, key)
    ensures forall g :: 0 <= g < |groups| && (r < 0 || g < r) ==> !EqualsIgnoreCase(groups[g].key, key)
  {
    if |groups| == 0 then -1
    else if EqualsIgnoreCase(groups[0].key, key) then 0
    else
      var r := FindGroup(groups[1..], key);
      if r < 0 then -1 else r + 1
  }

  /** Each group holds the counts of its key in `rows`. */
  ghost predicate CountsOf(rows: seq<IssueRow>, grouping: Grouping, groups: seq<GroupStat>) {
    forall g :: 0 <= g < |groups| ==>
      && 1 <= groups[g].total == CountKey(rows, grouping, groups[g].key)
      && groups[g].open == CountOpenKey(rows, grouping, groups[g].key)
  }

  /** In counted groups the open count is at most the total. */
  lemma GroupOpenAtMostTotal(rows: seq<IssueRow>, grouping: Grouping, groups: seq<GroupStat>)
    requires CountsOf(rows, grouping, groups)
    ensures forall g :: 0 <= g < |groups| ==> groups[g].open <= groups[g].total
  {
    forall g | 0 <= g < |groups|
      ensures groups[g].open <= groups[g].total
    {
      OpenAtMostTotal(rows, grouping, groups[g].key);
    }
  }

  /** Every row falls into some group. */
  ghost predicate CoversAll(rows: seq<IssueRow>, grouping: Grouping, groups: seq<GroupStat>) {
    forall j :: 0 <= j < |rows| ==> Covered(groups, KeyOf(rows[j], grouping))
  }

  /** Every group is keyed by exactly the key of its first row. */
  predicate KeyedByFirst(rows: seq<IssueRow>, grouping: Grouping, groups: seq<GroupStat>) {
    forall g :: 0 <= g < |groups| ==>
      var first := FirstInGroup(rows, grouping, groups[g].key);
      first < |rows| && KeyOf(rows[first], grouping) == groups[g].key
  }

  /** `groups` is what grouping `rows` yields. */
  ghost predicate GroupsOf(rows: seq<IssueRow>, grouping: Grouping, groups: seq<GroupStat>) {
    && DistinctKeys(groups)
    && CountsOf(rows, grouping, groups)
    && CoversAll(rows, grouping, groups)
    && KeyedByFirst(rows, grouping, groups)
  }

  /** Counting one more row: a new group for an unseen key, else one more in
      the group the key falls into. */
  function AddRow(groups: seq<GroupStat>, x: IssueRow, grouping: Grouping): (groups': seq<GroupStat>)
    ensures FindGroup(groups, KeyOf(x, grouping)) < 0 ==> groups' == groups + [GroupStat(KeyOf(x, grouping), 1, if x.done then 0 else 1)]
    ensures FindGroup(groups, KeyOf(x, grouping)) >= 0 ==> |groups'| == |groups|
    ensures forall h :: 0 <= h < |groups| ==> groups'[h].key == groups[h].key
  {
    var k := KeyOf(x, grouping);
    var g := FindGroup(groups, k);
    var open := if x.done then 0 else 1;
    if g < 0 then groups + [GroupStat(k, 1, open)]
    else groups[g := GroupStat(groups[g].key, groups[g].total + 1, groups[g].open + open)]
  }

  lemma DistinctAfterAdd(groups: seq<GroupStat>, x: IssueRow, grouping: Grouping)
    requires DistinctKeys(groups)
    ensures DistinctKeys(AddRow(groups, x, grouping))
  {
  }

  lemma CountsAfterAddOld(rows: seq<IssueRow>, x: IssueRow, grouping: Grouping, groups: seq<GroupStat>, h: int)
    requires DistinctKeys(groups) && CountsOf(rows, grouping, groups)
    requires 0 <= h < |groups|
    ensures var groups' := AddRow(groups, x, grouping);
      && 1 <= groups'[h].total == CountKey(rows + [x], grouping, groups'[h].key)
      && groups'[h].open == CountOpenKey(rows + [x], grouping, groups'[h].key)
  {
    var k := KeyOf(x, grouping);
    var g := FindGroup(groups, k);
    CountKeySnoc(rows, x, grouping, groups[h].key);
    if h != g {
      if g >= 0 {
        assert !EqualsIgnoreCase(groups[h].key, groups[g].key);
      }
      assert !EqualsIgnoreCase(k, groups[h].key);
    }
  }

  lemma CountsAfterAddNew(rows: seq<IssueRow>, x: IssueRow, grouping: Grouping, groups: seq<GroupStat>)
    requires CoversAll(rows, grouping, groups)
    requires FindGroup(groups, KeyOf(x, grouping)) < 0
    ensures var groups' := AddRow(groups, x, grouping);
      && 1 <= groups'[|groups|].total == CountKey(rows + [x], grouping, groups'[|groups|].key)
      && groups'[|groups|].open == CountOpenKey(rows + [x], grouping, groups'[|groups|].key)
  {
    var k := KeyOf(x, grouping);
    forall j | 0 <= j < |rows|
      ensures !EqualsIgnoreCase(KeyOf(rows[j], grouping), k)
    {
      assert Covered(groups, KeyOf(rows[j], grouping));
    }
    CountsNone(rows, grouping, k);
    CountKeySnoc(rows, x, grouping, k);
  }

  lemma CountsAfterAdd(rows: seq<IssueRow>, x: IssueRow, grouping: Grouping, groups: seq<GroupStat>)
    requires DistinctKeys(groups) && CountsOf(rows, grouping, groups) && CoversAll(rows, grouping, groups)
    ensures CountsOf(rows + [x], grouping, AddRow(groups, x, grouping))
  {
    var groups' := AddRow(groups, x, grouping);
    forall h | 0 <= h < |groups'|
      ensures 1 <= groups'[h].total == CountKey(rows + [x], grouping, groups'[h].key)
      ensures groups'[h].open == CountOpenKey(rows + [x], grouping, groups'[h].key)
    {
      if h < |groups| {
        CountsAfterAddOld(rows, x, grouping, groups, h);
      } else {
        CountsAfterAddNew(rows, x, grouping, groups);
      }
    }
  }

  lemma CoversAfterAdd(rows: seq<IssueRow>, x: IssueRow, grouping: Grouping, groups: seq<GroupStat>)
    requires CoversAll(rows, grouping, groups)
    ensures CoversAll(rows + [x], grouping, AddRow(groups, x, grouping))
  {
    var k := KeyOf(x, grouping);
    var g := FindGroup(groups, k);
    var rows' := rows + [x];
    var groups' := AddRow(groups, x, grouping);
    forall j | 0 <= j < |rows'|
      ensures Covered(groups', KeyOf(rows'[j], grouping))
    {
      if j < |rows| {
        assert Covered(groups, KeyOf(rows[j], grouping));
        var h :| 0 <= h < |groups| && EqualsIgnoreCase(groups[h].key, KeyOf(rows[j], grouping));
        assert EqualsIgnoreCase(groups'[h].key, KeyOf(rows'[j], grouping));
      } else if g < 0 {
        assert EqualsIgnoreCase(groups'[|groups|].key, k);
      } else {
        assert EqualsIgnoreCase(groups'[g].key, k);
      }
    }
  }

  /** A row appended at the end does not move a group's first row. */
  lemma FirstInGroupSnoc(rows: seq<IssueRow>, x: IssueRow, grouping: Grouping, key: string)
    requires FirstInGroup(rows, grouping, key) < |rows|
    ensures FirstInGroup(rows + [x], grouping, key) == FirstInGroup(rows, grouping, key)
  {
    var b := FirstInGroup(rows, grouping, key);
    assert (rows + [x])[b] == rows[b];
  }

  lemma FirstOfNewGroup(rows: seq<IssueRow>, x: IssueRow, grouping: Grouping, groups: seq<GroupStat>)
    requires CoversAll(rows, grouping, groups)
    requires FindGroup(groups, KeyOf(x, grouping)) < 0
    ensures FirstInGroup(rows + [x], grouping, KeyOf(x, grouping)) == |rows|
  {
    var k := KeyOf(x, grouping);
    var rows' := rows + [x];
    assert rows'[|rows|] == x;
  }

  lemma KeyedAfterAdd(rows: seq<IssueRow>, x: IssueRow, grouping: Grouping, groups: seq<GroupStat>)
    requires CoversAll(rows, grouping, groups) && KeyedByFirst(rows, grouping, groups)
    ensures KeyedByFirst(rows + [x], grouping, AddRow(groups, x, grouping))
  {
    var groups' := AddRow(groups, x, grouping);
    forall h | 0 <= h < |groups'|
      ensures var first := FirstInGroup(rows + [x], grouping, groups'[h].key);
        first < |rows + [x]| && KeyOf((rows + [x])[first], grouping) == groups'[h].key
    {
      if h < |groups| {
        FirstInGroupSnoc(rows, x, grouping, groups[h].key);
        var first := FirstInGroup(rows, grouping, groups[h].key);
        assert (rows + [x])[first] == rows[first];
      } else {
        FirstOfNewGroup(rows, x, grouping, groups);
      }
    }
  }

  lemma GroupsOfSnoc(rows: seq<IssueRow>, x: IssueRow, grouping: Grouping, groups: seq<GroupStat>)
    requires GroupsOf(rows, grouping, groups)
    ensures GroupsOf(rows + [x], grouping, AddRow(groups, x, grouping))
  {
    DistinctAfterAdd(groups, x, grouping);
    CountsAfterAdd(rows, x, grouping, groups);
    CoversAfterAdd(rows, x, grouping, groups);
    KeyedAfterAdd(rows, x, grouping, groups);
  }

  lemma GroupsOfLonger(rows: seq<IssueRow>, i: int, grouping: Grouping, groups: seq<GroupStat>)
    requires 0 <= i < |rows| && GroupsOf(rows[..i], grouping, groups)
    ensures GroupsOf(rows[..i + 1], grouping, AddRow(groups, rows[i], grouping))
  {
    assert rows[..i + 1] == rows[..i] + [rows[i]];
    GroupsOfSnoc(rows[..i], rows[i], grouping, groups);
  }

  /** `GroupBy(KeyOf, OrdinalIgnoreCase)` with the counts of each group: keys
      distinct up to case, each group counted, every row in a group, each group
      keyed by its first row. Groups come out in first-occurrence order. */
  method GroupStats(rows: seq<IssueRow>, grouping: Grouping) returns (groups: seq<GroupStat>)
    ensures GroupsOf(rows, grouping, groups)
  {
    groups := [];
    var i := 0;
    assert rows[..i] == [];
    while i < |rows|
      invariant 0 <= i <= |rows|
      invariant GroupsOf(rows[..i], grouping, groups)
    {
      GroupsOfLonger(rows, i, grouping, groups);
      groups := AddRow(groups, rows[i], grouping);
      i := i + 1;
    }
    assert rows[..i] == rows;
  }

  /** The combo entry standing for "no application". */
  const NoApplication: string := "(nessuna)"

  /** The counts after a group's name: " (open/total)", or " (✓ total)"
      when nothing in the group is open. */
  function CountSuffix(open: nat, total: nat): (s: string)
    ensures |s| >= 4 && s[..2] == " ("  && s[|s| - 1] == ')'
    ensures forall i :: 2 <= i < |s| ==> s[i] != '('
    ensures s[2] == '✓' <==> open == 0
    ensures open > 0 ==> exists k :: 2 < k < |s| - 1 && s[k] == '/' && ReadsAs(s[2..k], open) && ReadsAs(s[k + 1..|s| - 1], total)
    ensures open == 0 ==> s[2..4] == "✓ " && ReadsAs(s[4..|s| - 1], total)
  {
    if open > 0 then
      var a, b := NatToString(open), NatToString(total);
      var s := " (" + a + "/" + b + ")";
      var k := 2 + |a|;
      assert s[2..k] == a;
      assert s[k + 1..|s| - 1] == b;
      s
    else
      var b := NatToString(total);
      var s := " (✓ " + b + ")";
      assert s[4..|s| - 1] == b;
      s
  }

  function AppDisplayName(key: string): string {
    if IsBlank(key) then NoApplication else key
  }

  function AppLabel(g: GroupStat): string {
    AppDisplayName(g.key) + CountSuffix(g.open, g.total)
  }

  function TitleLabel(g: GroupStat): string {
    g.key + CountSuffix(g.open, g.total)
  }

  /** The first item of a combo: every row, with its open and total counts. */
  function HeaderLabel(all: string, rows: seq<IssueRow>): string {
    "\U{1F50D} " + all + " (" + NatToString(CountOpen(rows)) + "/" + NatToString(|rows|) + ")"
  }

  /** The rows the title combo groups: those of the current application filter. */
  function TitleSource(rows: seq<IssueRow>, appFilter: Option<string>): seq<IssueRow> {
    FilterIssues(rows, FilterState(appFilter, None, false))
  }

  /** A combo's items: the header, then one item per group, in group order. */
  function ComboItems(header: string, groups: seq<GroupStat>, itemOf: GroupStat -> string): (items: seq<string>)
    ensures |items| == |groups| + 1
    ensures items[0] == header
    ensures forall g :: 0 <= g < |groups| ==> items[g + 1] == itemOf(groups[g])
  {
    [header] + seq(|groups|, g requires 0 <= g < |groups| => itemOf(groups[g]))
  }

  /** The items of the application combo. */
  function AppItems(rows: seq<IssueRow>, groups: seq<GroupStat>): (items: seq<string>)
    ensures |items| == |groups| + 1
    ensures items[0] == HeaderLabel("Tutte", rows)
    ensures forall g :: 0 <= g < |groups| ==> items[g + 1] == AppLabel(groups[g])
  {
    ComboItems(HeaderLabel("Tutte", rows), groups, AppLabel)
  }

  /** The items of the title combo. */
  function TitleItems(rows: seq<IssueRow>, groups: seq<GroupStat>): (items: seq<string>)
    ensures |items| == |groups| + 1
    ensures items[0] == HeaderLabel("Tutti", rows)
    ensures forall g :: 0 <= g < |groups| ==> items[g + 1] == TitleLabel(groups[g])
  {
    ComboItems(HeaderLabel("Tutti", rows), groups, TitleLabel)
  }

  /** The combo index selected again after a reload: the group the previous
      filter names, shifted past the header item, or the header. */
  function RestoreIndex(groups: seq<GroupStat>, previous: Option<string>): (idx: nat)
    ensures idx <= |groups|
    ensures idx == 0 <==> previous.None? || forall g :: 0 <= g < |groups| ==> !EqualsIgnoreCase(groups[g].key, previous.value)
    ensures idx > 0 ==> previous.Some? && EqualsIgnoreCase(groups[idx - 1].key, previous.value)
    ensures idx > 0 ==> forall g :: 0 <= g < idx - 1 ==> !EqualsIgnoreCase(groups[g].key, previous.value)
  {
    if previous.None? then 0
    else
      var m := FindGroup(groups, previous.value);
      if m >= 0 then m + 1 else 0
  }

  /** `name` is the part of `item` before its last " (" when that is not
      at the start, and the whole item otherwise. */
  ghost predicate IsLabelName(item: string, name: string) {
    && |name| <= |item| && item[..|name|] == name
    && (|name| < |item| ==> 0 < |name| && OccursAt(item, " (", |name|))
    && (forall j :: |name| < j ==> !OccursAt(item, " (", j))
    && (|name| == |item| ==> forall j :: 0 < j ==> !OccursAt(item, " (", j))
  }

  /** The name part of an item. */
  function LabelName(item: string): (name: string)
    ensures IsLabelName(item, name)
  {
    var lastParen := LastIndexOf(item, " (");
    if lastParen > 0 then item[..lastParen] else item
  }

  /** The application an item names: its name part, except that
      "(nessuna)" stands for the empty application. */
  function ParseAppLabel(item: string): (app: string)
    ensures app != "" ==> IsLabelName(item, app) && app != NoApplication
    ensures app == "" ==> IsLabelName(item, "") || IsLabelName(item, NoApplication)
  {
    var name := LabelName(item);
    if name == NoApplication then "" else name
  }

  /** The title an item names: its name part. */
  function ParseTitleLabel(item: string): (title: string)
    ensures IsLabelName(item, title)
  {
    LabelName(item)
  }

  /** A non-empty name followed by its counts reads back as the name. */
  lemma SuffixedLabelName(name: string, open: nat, total: nat)
    requires |name| > 0
    ensures LabelName(name + CountSuffix(open, total)) == name
  {
    var suffix := CountSuffix(open, total);
    var s := name + suffix;
    assert s[|name|..|name| + 2] == suffix[..2];
    assert OccursAt(s, " (", |name|);
    forall j | |name| < j
      ensures !OccursAt(s, " (", j)
    {
      if j + 2 <= |s| {
        assert s[j + 1] == suffix[j + 1 - |name|];
      }
    }
    var r := LastIndexOf(s, " (");
    assert r == |name|;
    assert s[..r] == name;
  }

  /** `ApplyAppFilter`: nothing while reloading; otherwise the application
      read back from the selected item (none for the header) and the title
      filter cleared. */
  function ApplyAppFilter(f: FilterState, reloading: bool, items: seq<string>, selected: int): (f': FilterState)
    requires selected < |items|
    ensures reloading ==> f' == f
    ensures !reloading ==> f'.title.None? && f'.onlyOpen == f.onlyOpen
    ensures !reloading ==> (f'.app.None? <==> selected <= 0)
  {
    if reloading then f
    else if selected <= 0 then f.(app := None, title := None)
    else f.(app := Some(ParseAppLabel(items[selected])), title := None)
  }

  /** `ApplyTitleFilter`: nothing while reloading; otherwise the title read
      back from the selected item (none for the header). */
  function ApplyTitleFilter(f: FilterState, reloading: bool, items: seq<string>, selected: int): (f': FilterState)
    requires selected < |items|
    ensures reloading ==> f' == f
    ensures !reloading ==> f'.app == f.app && f'.onlyOpen == f.onlyOpen
    ensures !reloading ==> (f'.title.None? <==> selected <= 0)
  {
    if reloading then f
    else if selected <= 0 then f.(title := None)
    else f.(title := Some(ParseTitleLabel(items[selected])))
  }

  /** Picking an application group whose key is neither blank nor the
      "(nessuna)" text filters on exactly that key, and the next reload
      selects the same item again. */
  lemma AppSelectionRoundTrip(rows: seq<IssueRow>, groups: seq<GroupStat>, k: int, f: FilterState)
    requires DistinctKeys(groups)
    requires 1 <= k <= |groups|
    requires !IsBlank(groups[k - 1].key) && groups[k - 1].key != NoApplication
    ensures ApplyAppFilter(f, false, AppItems(rows, groups), k).app == Some(groups[k - 1].key)
    ensures RestoreIndex(groups, ApplyAppFilter(f, false, AppItems(rows, groups), k).app) == k
  {
    AppItemReadsKey(rows, groups, k, f);
    RestoreIndexOfGroup(groups, k);
  }

  lemma AppItemReadsKey(rows: seq<IssueRow>, groups: seq<GroupStat>, k: int, f: FilterState)
    requires 1 <= k <= |groups|
    requires !IsBlank(groups[k - 1].key) && groups[k - 1].key != NoApplication
    ensures ApplyAppFilter(f, false, AppItems(rows, groups), k).app == Some(groups[k - 1].key)
  {
    var g := groups[k - 1];
    assert |g.key| > 0;
    SuffixedLabelName(g.key, g.open, g.total);
  }

  /** With keys distinct up to case, a group's own key restores its item. */
  lemma RestoreIndexOfGroup(groups: seq<GroupStat>, k: int)
    requires DistinctKeys(groups)
    requires 1 <= k <= |groups|
    ensures RestoreIndex(groups, Some(groups[k - 1].key)) == k
  {
    assert EqualsIgnoreCase(groups[k - 1].key, groups[k - 1].key);
  }

  /** Picking a title group with a non-empty key filters on exactly that
      key, and the next reload selects the same item again. */
  lemma TitleSelectionRoundTrip(rows: seq<IssueRow>, groups: seq<GroupStat>, k: int, f: FilterState)
    requires DistinctKeys(groups)
    requires 1 <= k <= |groups|
    requires |groups[k - 1].key| > 0
    ensures ApplyTitleFilter(f, false, TitleItems(rows, groups), k).title == Some(groups[k - 1].key)
    ensures RestoreIndex(groups, ApplyTitleFilter(f, false, TitleItems(rows, groups), k).title) == k
  {
    TitleItemReadsKey(rows, groups, k, f);
    RestoreIndexOfGroup(groups, k);
  }

  lemma TitleItemReadsKey(rows: seq<IssueRow>, groups: seq<GroupStat>, k: int, f: FilterState)
    requires 1 <= k <= |groups|
    requires |groups[k - 1].key| > 0
    ensures ApplyTitleFilter(f, false, TitleItems(rows, groups), k).title == Some(groups[k - 1].key)
  {
    var g := groups[k - 1];
    SuffixedLabelName(g.key, g.open, g.total);
  }

  /** The group of issues without an application (empty key) is shown as
      "(nessuna)" and reads back as the empty key. */
  lemma EmptyAppSelectionRoundTrip(rows: seq<IssueRow>, groups: seq<GroupStat>, k: int, f: FilterState)
    requires DistinctKeys(groups)
    requires 1 <= k <= |groups|
    requires groups[k - 1].key == ""
    ensures ApplyAppFilter(f, false, AppItems(rows, groups), k).app == Some("")
    ensures RestoreIndex(groups, Some("")) == k
  {
    BlankAppItemFiltersEmpty(rows, groups, k, f);
    RestoreIndexOfGroup(groups, k);
  }

  lemma NoApplicationItemReadsEmpty(open: nat, total: nat)
    ensures ParseAppLabel(NoApplication + CountSuffix(open, total)) == ""
  {
    SuffixedLabelName(NoApplication, open, total);
  }

  /** The item of a blank-keyed application group reads back as the empty key. */
  lemma BlankAppItemReadsEmpty(rows: seq<IssueRow>, groups: seq<GroupStat>, k: int)
    requires 1 <= k <= |groups|
    requires groups[k - 1].key == NoApplication || IsBlank(groups[k - 1].key)
    ensures ParseAppLabel(AppItems(rows, groups)[k]) == ""
  {
    var g := groups[k - 1];
    assert AppItems(rows, groups)[k] == NoApplication + CountSuffix(g.open, g.total);
    NoApplicationItemReadsEmpty(g.open, g.total);
  }

  lemma NonEmptyIsNotEmptyIgnoringCase(key: string)
    requires |key| > 0
    ensures !EqualsIgnoreCase(key, "")
  {
    assert |ToUpper(key)| != |ToUpper("")|;
  }

  /** As written, an application group whose key is "(nessuna)" itself, or
      blank but not empty, reads back as the empty key: the filter then names
      no row of the picked group and the next reload selects another item. */
  lemma AppLabelLosesGroup(rows: seq<IssueRow>, groups: seq<GroupStat>, k: int, f: FilterState)
    requires 1 <= k <= |groups|
    requires groups[k - 1].key == NoApplication || (IsBlank(groups[k - 1].key) && groups[k - 1].key != "")
    ensures ApplyAppFilter(f, false, AppItems(rows, groups), k).app == Some("")
    ensures !EqualsIgnoreCase(groups[k - 1].key, "")
    ensures RestoreIndex(groups, Some("")) != k
  {
    BlankAppItemFiltersEmpty(rows, groups, k, f);
    NonEmptyIsNotEmptyIgnoringCase(groups[k - 1].key);
    RestoreIndexNotOther(groups, "", k);
  }

  lemma BlankAppItemFiltersEmpty(rows: seq<IssueRow>, groups: seq<GroupStat>, k: int, f: FilterState)
    requires 1 <= k <= |groups|
    requires groups[k - 1].key == NoApplication || IsBlank(groups[k - 1].key)
    ensures ApplyAppFilter(f, false, AppItems(rows, groups), k).app == Some("")
  {
    BlankAppItemReadsEmpty(rows, groups, k);
  }

  lemma RestoreIndexNotOther(groups: seq<GroupStat>, key: string, k: int)
    requires 1 <= k <= |groups| && !EqualsIgnoreCase(groups[k - 1].key, key)
    ensures RestoreIndex(groups, Some(key)) != k
  {
  }

  /** A concrete case: one issue whose application is literally "(nessuna)". */
  lemma NamedNoApplicationCounterexample()
    ensures var x := IssueRow("a1", false, NoApplication, "t", "", "", 0);
      var groups := [GroupStat(NoApplication, 1, 1)];
      var f := ApplyAppFilter(FilterState(None, None, false), false, AppItems([x], groups), 1);
      && f.app == Some("")
      && FilterIssues([x], f) == []
      && RestoreIndex(groups, f.app) == 0
  {
    var x := IssueRow("a1", false, NoApplication, "t", "", "", 0);
    var groups := [GroupStat(NoApplication, 1, 1)];
    AppLabelLosesGroup([x], groups, 1, FilterState(None, None, false));
    var f := ApplyAppFilter(FilterState(None, None, false), false, AppItems([x], groups), 1);
    assert !Matches(x, f);
    assert multiset(FilterIssues([x], f))[x] == 0;
  }

  /** The application filter set by picking group `selected` directly, rather
      than by reading the key back from the item text. */
  function SelectAppGroup(f: FilterState, reloading: bool, groups: seq<GroupStat>, selected: int): (f': FilterState)
    requires selected <= |groups|
    ensures reloading ==> f' == f
    ensures !reloading ==> f'.title.None? && f'.onlyOpen == f.onlyOpen
    ensures !reloading ==> (f'.app.None? <==> selected <= 0)
  {
    if reloading then f
    else if selected <= 0 then f.(app := None, title := None)
    else f.(app := Some(groups[selected - 1].key), title := None)
  }

  /** Filtering on an application key shows as many rows as its group counts. */
  lemma AppFilterCount(rows: seq<IssueRow>, key: string)
    ensures |FilterIssues(rows, FilterState(Some(key), None, false))| == CountKey(rows, ByApplication, key)
  {
    CountKeyIsWhere(rows, ByApplication, key);
    WhereSame(rows, HasApplication(key), InGroup(ByApplication, key));
  }

  /** With selection by group, every pick round-trips, blank and "(nessuna)"
      keys included. */
  lemma SelectedGroupRoundTrip(groups: seq<GroupStat>, k: int, f: FilterState)
    requires DistinctKeys(groups)
    requires 1 <= k <= |groups|
    ensures SelectAppGroup(f, false, groups, k).app == Some(groups[k - 1].key)
    ensures RestoreIndex(groups, SelectAppGroup(f, false, groups, k).app) == k
  {
    assert EqualsIgnoreCase(groups[k - 1].key, groups[k - 1].key);
  }

  /** Without the open-only filter, the grid then shows as many rows as the
      picked group counts. */
  lemma SelectedGroupShowsGroup(rows: seq<IssueRow>, groups: seq<GroupStat>, k: int, f: FilterState)
    requires CountsOf(rows, ByApplication, groups)
    requires 1 <= k <= |groups|
    requires !f.onlyOpen
    ensures |FilterIssues(rows, SelectAppGroup(f, false, groups, k))| == groups[k - 1].total
  {
    var key := groups[k - 1].key;
    AppFilterCount(rows, key);
    assert SelectAppGroup(f, false, groups, k) == FilterState(Some(key), None, false);
  }

  /** Selecting by group agrees with reading the item back whenever the
      item text round-trips. */
  lemma SelectAppGroupAgrees(rows: seq<IssueRow>, groups: seq<GroupStat>, k: int, f: FilterState, reloading: bool)
    requires 1 <= k <= |groups|
    requires groups[k - 1].key == "" || (!IsBlank(groups[k - 1].key) && groups[k - 1].key != NoApplication)
    ensures SelectAppGroup(f, reloading, groups, k) == ApplyAppFilter(f, reloading, AppItems(rows, groups), k)
  {
    var g := groups[k - 1];
    if g.key == "" {
      SuffixedLabelName(NoApplication, g.open, g.total);
    } else {
      SuffixedLabelName(g.key, g.open, g.total);
    }
  }

  /** A shown row is one the title combo groups. */
  lemma ShownRowInTitleSource(rows: seq<IssueRow>, f: FilterState, x: IssueRow)
    requires x in multiset(FilterIssues(rows, f))
    ensures x in TitleSource(rows, f.app) && Matches(x, f)
  {
    assert multiset(TitleSource(rows, f.app))[x] > 0;
  }

  /** As written, a filter whose group has disappeared (its last issue deleted
      or renamed) stays in force while the combo shows the header item: the
      grid is then empty although "all" is selected. */
  lemma StaleTitleFilterHidden(rows: seq<IssueRow>, groups: seq<GroupStat>, f: FilterState)
    requires CoversAll(TitleSource(rows, f.app), ByTitle, groups)
    requires f.title.Some? && FindGroup(groups, f.title.value) < 0
    ensures RestoreIndex(groups, f.title) == 0
    ensures FilterIssues(rows, f) == []
  {
    var source := TitleSource(rows, f.app);
    var shown := FilterIssues(rows, f);
    if |shown| > 0 {
      var x := shown[0];
      ShownRowInTitleSource(rows, f, x);
      assert false;
    }
  }

  /** The same holds for the application filter: when the last issue of the
      filtered application is gone, the combo shows "all" and the grid is
      empty. */
  lemma StaleAppFilterHidden(rows: seq<IssueRow>, groups: seq<GroupStat>, f: FilterState)
    requires CoversAll(rows, ByApplication, groups)
    requires f.app.Some? && FindGroup(groups, f.app.value) < 0
    ensures RestoreIndex(groups, f.app) == 0
    ensures FilterIssues(rows, f) == []
  {
    var shown := FilterIssues(rows, f);
    if |shown| > 0 {
      var x := shown[0];
      ShownRowInRows(rows, f, x);
      assert false;
    }
  }

  /** A shown row is one of the loaded rows. */
  lemma ShownRowInRows(rows: seq<IssueRow>, f: FilterState, x: IssueRow)
    requires x in multiset(FilterIssues(rows, f))
    ensures x in rows && Matches(x, f)
  {
    assert multiset(rows)[x] > 0;
  }

  /** What `UpdateFilterComboBoxes` leaves in the two combos: each one's groups,
      items and restored selection. */
  datatype Combos = Combos(
    appGroups: seq<GroupStat>, appItems: seq<string>, appIndex: nat,
    titleGroups: seq<GroupStat>, titleItems: seq<string>, titleIndex: nat)

  /** `UpdateFilterComboBoxes`: the application combo groups every row, the
      title combo only the rows of the current application filter, and each
      selects again the group its previous filter names. */
  method UpdateFilterComboBoxes(all: seq<IssueRow>, f: FilterState) returns (c: Combos)
    ensures GroupsOf(all, ByApplication, c.appGroups)
    ensures c.appItems == AppItems(all, c.appGroups)
    ensures c.appIndex == RestoreIndex(c.appGroups, f.app)
    ensures GroupsOf(TitleSource(all, f.app), ByTitle, c.titleGroups)
    ensures c.titleItems == TitleItems(TitleSource(all, f.app), c.titleGroups)
    ensures c.titleIndex == RestoreIndex(c.titleGroups, f.title)
    ensures f.app.Some? && c.appIndex == 0 ==> FilterIssues(all, f) == []
    ensures f.title.Some? && c.titleIndex == 0 ==> FilterIssues(all, f) == []
  {
    var source := TitleSource(all, f.app);
    var appGroups := GroupStats(all, ByApplication);
    var titleGroups := GroupStats(source, ByTitle);
    c := Combos(appGroups, AppItems(all, appGroups), RestoreIndex(appGroups, f.app),
                titleGroups, TitleItems(source, titleGroups), RestoreIndex(titleGroups, f.title));
    if f.app.Some? && c.appIndex == 0 {
      StaleAppFilterHidden(all, appGroups, f);
    }
    if f.title.Some? && c.titleIndex == 0 {
      StaleTitleFilterHidden(all, titleGroups, f);
    }
  }

  /** The filter kept after a reload: unchanged while its group still
      exists, cleared once it is gone, so that the header item is selected
      exactly when no filter is in force. */
  function ReconcileFilter(groups: seq<GroupStat>, current: Option<string>): (r: Option<string>)
    ensures r.Some? ==> r == current
    ensures r.None? <==> current.None? || forall g :: 0 <= g < |groups| ==> !EqualsIgnoreCase(groups[g].key, current.value)
    ensures RestoreIndex(groups, r) == 0 <==> r.None?
  {
    if current.Some? && FindGroup(groups, current.value) < 0 then None else current
  }
}
