# IssuePad journal and filter model

IssuePad is a small Windows Forms issue tracker. Its storage is an
append-only journal, `issues.jsonl`: one JSON event per line (`add`,
`resolve`, `reopen`, `delete`, `update`). `IssueRepository.LoadAllIssues`
rebuilds the issues by replaying every line from first to last into a map
from issue id to `IssueRow`. `IssueRepository.AppendEvent` writes one
serialised event followed by `Environment.NewLine`. On the form side,
`ReloadFromDisk` sorts the issues, feeds the two filter combo boxes
(application and title, each item showing open/total counts) and applies the
application, title and "only open" filters. `ApplyAppFilter` and
`ApplyTitleFilter` read the chosen filter back out of the text of the
selected combo item.

This Dafny project models that core:

- `wrappers.dfy`: `Option`.
- `seqs.dfy`: associativity of sequence concatenation, used by the line-splitting proofs.
- `text.dfy`: the .NET string operations the core relies on. These are
  `Char.IsWhiteSpace`, `Trim`, `IsNullOrWhiteSpace`, ordinal ignore-case
  equality and order, ordinal `LastIndexOf`, and integer formatting.
- `models.dfy`: `DbLine` (the journal event) and `IssueRow` (the issue).
- `journal_file.dfy`: the journal file as text. It covers splitting into
  lines the way `File.ReadLines` does (`\n`, `\r` and `\r\n` end a line; a
  final terminator does not start an empty line) and `File.AppendAllText`.
- `issue_repository.dfy`: the replay fold (`Step`, `Replay`),
  `LoadAllIssues` and `AppendEvent`, and how loading behaves after an append.
- `journal_properties.dfy`: what each event kind does to the issues, and
  what a whole replay yields for one issue.
- `issue_order.dfy`: the display order (application, then title, both
  ignoring case, then newest first) as a sort.
- `issue_filters.dfy`: the three filters, the status counts and the row
  re-selected after a reload.
- `filter_combos.dfy`: the per-group counts, the combo item texts, the
  selection restored after a reload, and reading the filter back from an item.

JSON (de)serialisation is a library call. It enters the model as two
function parameters: `decode` (deserialise a trimmed line; `None` when the
call throws or yields null) and `encode`. The file is `Option<string>`, where
`None` means the file does not exist. Times are integers (`DateTime` ticks).
The clock is a parameter `now`.

Where the code and its description disagree, the model follows the code:

- An `update` overwrites every field the event carries, including an empty
  string. Only absent (null) fields are kept.
- `Models/DbLine.cs` declares no `Application` property, but the repository
  and the form read and write `Application` on events. The model's `DbLine`
  therefore carries an `application` field.
- The comment on `DbLine.Type` lists only `add`, `resolve` and `reopen`. The
  fold also handles `delete` and `update`, and so does the model.

## Model

| member | source | states |
|---|---|---|
| Text.Trim | Services/IssueRepository.cs:32-33 | the trimmed line is empty exactly when the raw line is all white space; otherwise it starts and ends with non-white-space, and the raw line is a white-space prefix, then the trimmed line, then a white-space suffix; a line with no surrounding white space is unchanged |
| Text.OrdinalLessTransitive | Forms/MainForm.Data.cs:13-14 | ordinal string order is transitive |
| Text.OrdinalLessTrichotomy | Forms/MainForm.Data.cs:13-14 | any two strings are equal or ordered one way or the other |
| Text.OrdinalLessIrreflexive | Forms/MainForm.Data.cs:13-14 | no string sorts before itself |
| Text.LastIndexOf | Forms/MainForm.Data.cs:172 | the result is -1 or the start of an occurrence of the pattern, and no occurrence starts further right |
| Text.NatToString | Forms/MainForm.Data.cs:100-102 | a count is printed as decimal digits without leading zeros that read back as the count |
| JournalFile.AppendAllText | Services/IssueRepository.cs:84 | the old content is kept and the text follows it; a missing file starts out empty |
| JournalFile.Lines | Services/IssueRepository.cs:30 | no line read back contains a line break, and only the empty text has no line |
| JournalFile.LinesOfTerminated | Services/IssueRepository.cs:30 | lines without line breaks, each written with a terminator, are read back exactly |
| JournalFile.LinesConcat | Services/IssueRepository.cs:30 | a text ending at a line boundary, followed by any text that does not turn its final `\r` into `\r\n`, splits into its own lines followed by the other text's lines |
| JournalFile.RecordIsOneLine | Services/IssueRepository.cs:84 | a record without line breaks, followed by `\r\n`, reads back as exactly that one line |
| JournalFile.AppendRecord | Services/IssueRepository.cs:84 | appending such a record and a terminator to a text ending at a line boundary adds exactly that record as one more line |
| JournalFile.TerminatingLastLine | Services/IssueRepository.cs:30 | terminating an unterminated last line adds no line |
| JournalFile.TornLastLine | Services/IssueRepository.cs:30 | text without a terminator after a line boundary is read as one more, last line |
| JournalFile.RecordAfterTornLine | Services/IssueRepository.cs:30 | a record and a terminator written after such an unterminated line are read together with it as a single line |
| IssueRepository.Step | Services/IssueRepository.cs:32-75 | a skipped line changes nothing; only the event's own id can change; an id appears only through `add` and disappears only through `delete`; every issue stays stored under its own id |
| IssueRepository.ReplayFrom | Services/IssueRepository.cs:30-76 | folding lines, first to last, into issues that are stored under their own ids keeps them so |
| IssueRepository.Replay | Services/IssueRepository.cs:25-76 | the fold from the empty dictionary stores every issue under its own id |
| IssueRepository.ReplayFromAppend | Services/IssueRepository.cs:30-76 | replaying one more line is one more step after the replay of the others |
| IssueRepository.ReplayAppend | Services/IssueRepository.cs:30-76 | the same, starting from the empty map |
| IssueRepository.ReplayFromConcat | Services/IssueRepository.cs:30-76 | replaying two journals in a row is replaying their concatenation |
| IssueRepository.ReadLine | Services/IssueRepository.cs:32-40 | a blank line yields no event |
| IssueRepository.ReadLinesConcat | Services/IssueRepository.cs:30-40 | each line is read on its own: parsing two runs of lines one after the other gives the two parse results one after the other |
| IssueRepository.LoadAllIssues | Services/IssueRepository.cs:23-79 | a missing file gives no issues; every issue is stored under its own id |
| IssueRepository.LoadIsReplay | Services/IssueRepository.cs:23-79 | loading is replaying the parsed lines of the file, from the empty map |
| IssueRepository.AppendEvent | Services/IssueRepository.cs:81-85 | the old content is unchanged; the new content is the serialised event and `\r\n`; the file then ends at a line boundary |
| IssueRepository.JournalAfterAppend | Services/IssueRepository.cs:81-85 | on a file ending at a line boundary, the append adds exactly one line, and it reads back as the event |
| IssueRepository.LoadAfterAppend | Services/IssueRepository.cs:23-85 | loading after such an append is one more replay step with the appended event |
| IssueRepository.LoadAfterRecord | Services/IssueRepository.cs:23-85 | once a record without line breaks has been appended with its terminator after a line boundary, loading is one extra replay step, applied to whatever that record parses as |
| IssueRepository.AppendAfterTornLine | Services/IssueRepository.cs:81-85 | after an unterminated last line, the appended record is glued onto that line and is not a line of its own; loading then sees one glued line |
| IssueRepository.AppendEventOnOwnLine | Services/IssueRepository.cs:81-85 | corrected append: the old content is kept as a prefix and the file ends at a line boundary |
| IssueRepository.JournalAfterAppendOnOwnLine | Services/IssueRepository.cs:81-85 | with the corrected append, whatever the file's end, the event is exactly one more line and reads back as the event |
| IssueRepository.LoadAfterAppendOnOwnLine | Services/IssueRepository.cs:23-85 | with the corrected append, loading afterwards is always one more step with the event |
| IssueRepository.LoadAfterAppendAll | Services/IssueRepository.cs:23-85 | with `AppendEvent` as written, on a file that is absent or ends at a line boundary, loading after a series of appends replays exactly those events, in order, on top of what the journal held |
| IssueRepository.LoadAfterAppendAllOnOwnLine | Services/IssueRepository.cs:23-85 | with the corrected append, the same holds whatever the state of the file's end |
| JournalProperties.StepInert | Services/IssueRepository.cs:32-40 | a blank, unparseable or null line, or an event with a blank type or id, changes nothing |
| JournalProperties.UnknownTypeIsInert | Services/IssueRepository.cs:42-75 | a type other than the five exact, case-sensitive names is skipped |
| JournalProperties.StepAdd | Services/IssueRepository.cs:42-53 | `add` creates or overwrites the issue as open, with absent texts defaulted to empty (title to "(senza titolo)") and the time defaulted to now; nothing else changes |
| JournalProperties.StepResolve | Services/IssueRepository.cs:54-57 | `resolve` marks a present issue done and changes nothing else; on an absent id it changes nothing |
| JournalProperties.StepReopen | Services/IssueRepository.cs:58-61 | `reopen` marks a present issue open and changes nothing else; on an absent id it changes nothing |
| JournalProperties.StepDelete | Services/IssueRepository.cs:62-65 | `delete` removes the issue, if present, and touches nothing else |
| JournalProperties.StepUpdate | Services/IssueRepository.cs:66-75 | `update` on a present issue replaces exactly the texts the event carries and keeps id, done flag and creation time; on an absent id it changes nothing |
| JournalProperties.TimeOnlyMattersForAdd | Services/IssueRepository.cs:51 | only `add` reads the event time or the clock |
| JournalProperties.ReplayIgnoresNow | Services/IssueRepository.cs:42-53 | when every `add` line carries its time, the replay gives the same issues whatever the clock reads |
| JournalProperties.LoadIgnoresNow | Services/IssueRepository.cs:23-79 | when every `add` line of the file carries its time, two loads of the same file give the same issues |
| JournalProperties.UntimedAddDependsOnNow | Services/IssueRepository.cs:51 | an `add` line without a time takes the clock reading of the load, so loads at two different times disagree |
| JournalProperties.StepKeepsCreated | Services/IssueRepository.cs:44-75 | only an `add` of the issue changes its creation time |
| JournalProperties.StepKeepsDone | Services/IssueRepository.cs:44-75 | only `add`, `resolve` or `reopen` of the issue changes its done flag |
| JournalProperties.ReplayOfKey | Services/IssueRepository.cs:30-76 | an issue is present after a replay exactly when some `add` of its id is followed by no later `add` or `delete` of it; its creation time comes from that `add` |
| JournalProperties.ReplayDone | Services/IssueRepository.cs:54-61 | a present issue is done exactly when, after its last `add`, some `resolve` has no `reopen` after it |
| JournalProperties.AbsentUntilAdded | Services/IssueRepository.cs:54-75 | an absent issue stays absent until an `add`: `resolve`, `reopen` and `update` never create it |
| JournalProperties.DeleteThenStaleEvents | Services/IssueRepository.cs:62-65 | after `delete X`, later lines other than an `add` of X leave X absent |
| JournalProperties.DropInertLine | Services/IssueRepository.cs:32-40 | a skipped line can be removed from anywhere in the journal without changing the result |
| JournalProperties.LineOrderDecides | Services/IssueRepository.cs:30-75 | the order of the lines decides, not event times: `add` then `update` shows the update; `update` then `add` shows the add |
| IssueOrder.SortsBeforeTotal | Forms/MainForm.Data.cs:12-16 | any two issues can be ordered one way or the other |
| IssueOrder.SortsBeforeTransitive | Forms/MainForm.Data.cs:12-16 | the display order is transitive |
| IssueOrder.Insert | Forms/MainForm.Data.cs:12-16 | inserting into a sorted list keeps it sorted and adds exactly that issue |
| IssueOrder.SortIssues | Forms/MainForm.Data.cs:12-16 | the result is sorted by application, then title (both ignoring case), then newest first, and is a permutation of the loaded issues |
| IssueFilters.Where | Forms/MainForm.Data.cs:24 | the kept elements satisfy the predicate, keep their order, and each one satisfying it is kept as often as it occurs |
| IssueFilters.FilterIssues | Forms/MainForm.Data.cs:20-34 | the shown rows are, in their order, exactly the rows matching every filter that is set; with no filter every row is shown |
| IssueFilters.SubsequenceSorted | Forms/MainForm.Data.cs:20-34 | filtering keeps the display order |
| IssueFilters.GridRows | Forms/MainForm.Data.cs:12-36 | the grid shows, in display order, exactly the loaded issues matching the filters |
| IssueFilters.OpenPlusDone | Forms/MainForm.Data.cs:59-61 | open and closed issues add up to all issues |
| IssueFilters.OpenFilterCount | Forms/MainForm.Data.cs:60 | the open count is the number of rows the "only open" filter shows |
| IssueFilters.Tally | Forms/MainForm.Data.cs:59-61 | the status counts: total is every issue, open lies between 0 and total and is what the "only open" filter shows, closed is the number of done issues |
| IssueFilters.IndexOfId | Forms/MainForm.Data.cs:41 | -1 when no row has the id, otherwise the first row that does |
| IssueFilters.SelectionAfterReload | Forms/MainForm.Data.cs:39-47 | a row is re-selected exactly when a non-blank id was kept and a shown row has it, and then it is the first such row |
| FilterCombos.CountKeyIsWhere | Forms/MainForm.Data.cs:69-76 | a group's total is the number of rows whose key equals the group key ignoring case |
| FilterCombos.OpenAtMostTotal | Forms/MainForm.Data.cs:71-76 | a group never counts more open rows than rows |
| FilterCombos.GroupOpenAtMostTotal | Forms/MainForm.Data.cs:69-90 | in every counted group the open count is at most the total |
| FilterCombos.FindGroup | Forms/MainForm.Data.cs:109-110 | -1 when no group key equals the key ignoring case, otherwise the first group whose key does |
| FilterCombos.GroupsOfSnoc | Forms/MainForm.Data.cs:69-90 | counting one more row keeps the grouping invariant |
| FilterCombos.GroupStats | Forms/MainForm.Data.cs:69-90 | group keys are distinct ignoring case; each group counts exactly its rows in total and open; every row falls in a group; each group carries the key of its first row |
| FilterCombos.CountSuffix | Forms/MainForm.Data.cs:100-102 | the counts follow " (" and end with ")"; no further "(" occurs; with open issues the text between " (" and ")" is two decimal numerals without leading zeros around "/" that read back as the open count and the total; otherwise it is "✓ " and such a numeral that reads back as the total |
| FilterCombos.AppItems | Forms/MainForm.Data.cs:93-104 | the header item "🔍 Tutte (open/total)" over all issues, then one item per application group in group order |
| FilterCombos.TitleItems | Forms/MainForm.Data.cs:122-133 | the header item "🔍 Tutti (open/total)" over the issues the title combo groups, then one item per title group in group order |
| FilterCombos.RestoreIndex | Forms/MainForm.Data.cs:106-119 | the header when there was no filter or no group matches it; otherwise one past the first group whose key equals the filter ignoring case |
| FilterCombos.LabelName | Forms/MainForm.Data.cs:171-173 | the name part is the prefix of the item before its last " (" when that is not at the start, and the whole item otherwise |
| FilterCombos.ParseAppLabel | Forms/MainForm.Data.cs:171-174 | a non-empty result is the item's name part and is not "(nessuna)"; an empty result comes from an empty name part or from "(nessuna)" |
| FilterCombos.ParseTitleLabel | Forms/MainForm.Data.cs:192-194 | the title is the item's name part |
| FilterCombos.SuffixedLabelName | Forms/MainForm.Data.cs:171-173 | a non-empty name followed by its counts reads back as the name |
| FilterCombos.ApplyAppFilter | Forms/MainForm.Data.cs:161-180 | nothing changes while reloading; otherwise the title filter is cleared, the open-only flag kept, and the application filter is set exactly when an item past the header is selected |
| FilterCombos.ApplyTitleFilter | Forms/MainForm.Data.cs:182-198 | nothing changes while reloading; otherwise the application filter and open-only flag are kept, and the title filter is set exactly when an item past the header is selected |
| FilterCombos.AppSelectionRoundTrip | Forms/MainForm.Data.cs:97-119 | picking an application group with a key that is neither blank nor "(nessuna)" filters on that key, and the next reload selects the same item |
| FilterCombos.TitleSelectionRoundTrip | Forms/MainForm.Data.cs:127-148 | picking a title group with a non-empty key filters on that key, and the next reload selects the same item |
| FilterCombos.EmptyAppSelectionRoundTrip | Forms/MainForm.Data.cs:97-119 | the group of issues without an application is shown as "(nessuna)" and reads back as the empty key, which selects it again |
| FilterCombos.BlankAppItemReadsEmpty | Forms/MainForm.Data.cs:171-174 | the item of a blank or "(nessuna)" application reads back as the empty key |
| FilterCombos.AppLabelLosesGroup | Forms/MainForm.Data.cs:171-174 | a group whose key is "(nessuna)", or blank but not empty, reads back as the empty key; that key does not name the group, and the next reload does not select it |
| FilterCombos.NamedNoApplicationCounterexample | Forms/MainForm.Data.cs:171-174 | one issue with application "(nessuna)": picking its item shows no rows and falls back to the header |
| FilterCombos.SelectAppGroup | Forms/MainForm.Data.cs:161-180 | corrected pick by group: nothing changes while reloading; otherwise the title filter is cleared and the application filter is set exactly when a group is picked |
| FilterCombos.SelectedGroupRoundTrip | Forms/MainForm.Data.cs:106-119 | with the corrected pick, every group round-trips, blank and "(nessuna)" keys included |
| FilterCombos.SelectedGroupShowsGroup | Forms/MainForm.Data.cs:20-28 | with the corrected pick and no open-only filter, the grid shows as many rows as the group's total |
| FilterCombos.AppFilterCount | Forms/MainForm.Data.cs:23-24 | filtering on an application key shows as many rows as the group of that key counts |
| FilterCombos.SelectAppGroupAgrees | Forms/MainForm.Data.cs:161-180 | the corrected pick agrees with the original whenever the item text round-trips |
| FilterCombos.ShownRowInTitleSource | Forms/MainForm.Data.cs:63-66 | every shown row is among the rows the title combo groups |
| FilterCombos.StaleTitleFilterHidden | Forms/MainForm.Data.cs:135-148 | when the title filter's group is gone, the combo shows the header while the filter stays in force, and the grid is empty |
| FilterCombos.StaleAppFilterHidden | Forms/MainForm.Data.cs:107-119 | when the application filter's group is gone, the combo shows the header while the filter stays in force, and the grid is empty |
| FilterCombos.ReconcileFilter | Forms/MainForm.Data.cs:107-148 | corrected: a filter whose group still exists is kept unchanged, one without a group is dropped, so the header is selected exactly when no filter is in force |
| FilterCombos.UpdateFilterComboBoxes | Forms/MainForm.Data.cs:54-148 | the application combo groups every issue and the title combo only those of the current application filter, each with its header and one item per group; each selects again the group its previous filter names; a previous filter that selects the header leaves the grid empty |

## Left out

- File system: the constructor, `DbPath`, directory creation, and UTF-8 decoding and encoding (byte order mark included) are not modelled. The file is its decoded text, or absent.
- I/O failures: `File.Exists`, `File.ReadLines` and `File.AppendAllText` are not wrapped in a handler, so a denied permission, a locked file or a full disk raises an exception that reaches the caller. `File.Exists` also answers false when the file cannot be accessed, so such a file loads as empty. None of this is modelled. The model's `IssueRepository.LoadAllIssues` and `IssueRepository.AppendEvent` are total, and a write cut short exists only as an input state: a file whose last line has no terminator (see the first row under "## Findings"). Invalid UTF-8 raises nothing: `Encoding.UTF8` replaces each undecodable sequence with U+FFFD, so such bytes are part of the decoded text the model takes as the file, typically a line that fails to parse.
- JSON: `JsonSerializer` with camelCase names enters as the `decode` and `encode` parameters. `WritesOneLine` assumes the serialiser writes one line that reads back as the same event, which is how it behaves by default.
- IssueRepository.LoadAllIssues: takes one `now` for the whole replay, while the source reads `DateTime.UtcNow` again for each `add` line without a time.
- IssueRepository.LoadAfterAppend: like the other load-after-append lemmas, compares two loads at the same clock reading. Two loads of the same file agree only when every `add` line carries its time (`JournalProperties.LoadIgnoresNow`). Every line the form writes does, but a hand-written `add` line without a time does not (`JournalProperties.UntimedAddDependsOnNow`).
- IssueRepository.LoadAllIssues: returns the map itself. The order of `dict.Values` is not specified by .NET and matters only through the later sort.
- IssueOrder.SortIssues: does not state that issues with equal sort keys keep their input order (LINQ's sort is stable). That input order is the dictionary's, which is unspecified anyway.
- Text.EqualsIgnoreCase: upper-cases ASCII letters only. .NET's ordinal ignore-case comparison also folds non-ASCII letters.
- Text.OrdinalLess: compares Unicode scalar values. .NET compares UTF-16 code units, which differs only for characters outside the Basic Multilingual Plane.
- FilterCombos.GroupStats: yields groups in first-occurrence order. The source then sorts them with `OrderBy(x => x.App)`, which uses the culture-sensitive default comparer. Every property about the combos holds for any order of distinct groups.
- Windows Forms widgets are parameters: the combo's selected index, the `_reloading` flag and the grid's rows. Setting the current cell, `LoadSelectedToEditor` and the status strip's label texts are not modelled. `Tally` gives the three numbers the strip shows.
- Concurrency is not modelled. Two instances appending at once, or editing the file while the form runs, are out of scope.
- Id generation and the form's event handlers (`Forms/MainForm.Actions.cs`, `Forms/MainForm.Setup.cs`, `Program.cs`) are not part of this model.

## Findings

| source | as written | input that shows it | evidently intended | confidence | as-written member | corrected member |
|---|---|---|---|---|---|---|
| Services/IssueRepository.cs:84 | the serialised event and a terminator are appended at the current end of the file | a journal whose last line has no terminator (a write cut short, or an edit by hand), then any `AppendEvent` | the event is a line of its own | low, not executed | IssueRepository.AppendAfterTornLine | IssueRepository.AppendEventOnOwnLine |
| Forms/MainForm.Data.cs:99-174 | a blank application is shown as "(nessuna)", and the item text "(nessuna)" is read back as the empty application | an issue whose application is literally "(nessuna)", or only spaces; picking its item sets the filter to "", which matches none of its rows, and the reload falls back to the header | picking an item filters on that item's group | medium, not executed | FilterCombos.AppLabelLosesGroup | FilterCombos.SelectAppGroup |
| Forms/MainForm.Data.cs:135-148 | a previous filter that no group matches selects the header item but stays in force | filter on title "X", then save the only issue titled "X" with title "Y"; the combo shows "🔍 Tutti" and the grid is empty | the filter is cleared when its group is gone | medium, not executed | FilterCombos.StaleTitleFilterHidden | FilterCombos.ReconcileFilter |
| Forms/MainForm.Data.cs:107-119 | a previous application filter that no group matches selects the header item but stays in force | filter on application "A", then delete the last issue of "A"; the combo shows "🔍 Tutte" and the grid is empty | the filter is cleared when its group is gone | medium, not executed | FilterCombos.StaleAppFilterHidden | FilterCombos.ReconcileFilter |
