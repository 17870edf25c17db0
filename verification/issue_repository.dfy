/**
 The event-sourced issue journal: `LoadAllIssues` replays the journal's lines,
 first to last, into a map from issue id to issue; `AppendEvent` adds one
 serialised event as a new line at the end of the journal file.

 JSON (de)serialisation is a library call and enters as two functions:
 `decode` stands for `JsonSerializer.Deserialize<DbLine>` on a trimmed line
 (`None` when it throws or yields null) and `encode` for
 `JsonSerializer.Serialize`. `DateTime.UtcNow` enters as `now`.
 */
module IssueRepository {
  import opened Wrappers
  import opened Text
  import opened Models
  import JournalFile

  type IssueMap = map<string, IssueRow>

  /** The title an `add` event without a title gets. */
  const Untitled: string := "(senza titolo)"

  datatype EventKind = Add | Resolve | Reopen | Delete | Update

  /** The event kinds the fold dispatches on; the comparison is exact and case-sensitive. */
  function KindOf(t: string): Option<EventKind> {
    if t == "add" then Some(Add)
    else if t == "resolve" then Some(Resolve)
    else if t == "reopen" then Some(Reopen)
    else if t == "delete" then Some(Delete)
    else if t == "update" then Some(Update)
    else None
  }

  /** A parsed line survives the validity filter: its type and its id are
      neither null nor white space. */
  predicate IsActionable(e: DbLine) {
    !IsNullOrWhiteSpace(e.eventType) && !IsNullOrWhiteSpace(e.id)
  }

  /** `line` parsed to an event of type `t` for issue `k` that passes the
      validity filter. */
  predicate IsEventFor(line: Option<DbLine>, k: string, t: string) {
    line.Some? && line.value.eventType == Some(t) && line.value.id == Some(k) && !IsBlank(k)
  }

  /** Every issue is stored under its own id. */
  predicate KeysMatchIds(m: IssueMap) {
    forall k :: k in m ==> m[k].id == k
  }

  /** The row an `add` event creates. */
  function NewRow(id: string, e: DbLine, now: int): IssueRow {
    IssueRow(
      id := id,
      done := false,
      application := e.application.GetOr(""),
      title := e.title.GetOr(Untitled),
      description := e.description.GetOr(""),
      notes := e.notes.GetOr(""),
      createdUtc := e.whenUtc.GetOr(now))
  }

  /** The copy an `update` event makes: each text field is replaced where the
      event carries a value (an empty string included). */
  function UpdatedRow(cur: IssueRow, e: DbLine): IssueRow {
    cur.(
      application := e.application.GetOr(cur.application),
      title := e.title.GetOr(cur.title),
      description := e.description.GetOr(cur.description),
      notes := e.notes.GetOr(cur.notes))
  }

  /** The effect of one journal line (`None`: blank, unparseable or JSON null). */
  function Step(state: IssueMap, line: Option<DbLine>, now: int): (next: IssueMap)
    ensures line.None? || !IsActionable(line.value) ==> next == state
    ensures forall k :: line.None? || line.value.id != Some(k) ==>
      (k in next <==> k in state) && (k in state ==> next[k] == state[k])
    ensures forall k :: k in next && k !in state ==> IsEventFor(line, k, "add")
    ensures forall k :: k in state && k !in next ==> IsEventFor(line, k, "delete")
    ensures KeysMatchIds(state) ==> KeysMatchIds(next)
  {
    match line
    case None => state
    case Some(e) =>
      if IsNullOrWhiteSpace(e.eventType) || IsNullOrWhiteSpace(e.id) then state
      else
        var id := e.id.value;
        match KindOf(e.eventType.value)
        case Some(Add) => state[id := NewRow(id, e, now)]
        case Some(Resolve) => if id in state then state[id := state[id].(done := true)] else state
        case Some(Reopen) => if id in state then state[id := state[id].(done := false)] else state
        case Some(Delete) => state - {id}
        case Some(Update) => if id in state then state[id := UpdatedRow(state[id], e)] else state
        case None => state
  }

  /** Folds the lines, first to last, into `state`. Issues stored under their
      own ids stay so. */
  function ReplayFrom(state: IssueMap, lines: seq<Option<DbLine>>, now: int): (r: IssueMap)
    ensures KeysMatchIds(state) ==> KeysMatchIds(r)
    decreases |lines|
  {
    if |lines| == 0 then state else ReplayFrom(Step(state, lines[0], now), lines[1..], now)
  }

  /** The issues a journal describes, replayed from the empty map: every
      issue is stored under its own id. */
  function Replay(lines: seq<Option<DbLine>>, now: int): (r: IssueMap)
    ensures KeysMatchIds(r)
  {
    ReplayFrom(map[], lines, now)
  }

  /** Replaying one more line is one more step: the fold is a left fold. */
  lemma {:induction false} ReplayFromAppend(state: IssueMap, lines: seq<Option<DbLine>>, line: Option<DbLine>, now: int)
    ensures ReplayFrom(state, lines + [line], now) == Step(ReplayFrom(state, lines, now), line, now)
    decreases |lines|
  {
    if |lines| == 0 {
      assert lines + [line] == [line];
    } else {
      assert (lines + [line])[1..] == lines[1..] + [line];
      ReplayFromAppend(Step(state, lines[0], now), lines[1..], line, now);
    }
  }

  lemma ReplayAppend(lines: seq<Option<DbLine>>, line: Option<DbLine>, now: int)
    ensures Replay(lines + [line], now) == Step(Replay(lines, now), line, now)
  {
    ReplayFromAppend(map[], lines, line, now);
  }

  /** Replaying a journal is replaying any prefix, then the rest from the
      prefix's state. */
  lemma {:induction false} ReplayFromConcat(state: IssueMap, a: seq<Option<DbLine>>, b: seq<Option<DbLine>>, now: int)
    ensures ReplayFrom(state, a + b, now) == ReplayFrom(ReplayFrom(state, a, now), b, now)
    decreases |a|
  {
    if |a| == 0 {
      assert a + b == b;
    } else {
      assert (a + b)[1..] == a[1..] + b;
      ReplayFromConcat(Step(state, a[0], now), a[1..], b, now);
    }
  }

  /** One journal line as the loop reads it: trimmed, skipped when empty, else
      deserialised. */
  function ReadLine(raw: string, decode: string -> Option<DbLine>): (e: Option<DbLine>)
    ensures IsBlank(raw) ==> e.None?
  {
    var line := Trim(raw);
    if |line| == 0 then None else decode(line)
  }

  function ReadLines(raws: seq<string>, decode: string -> Option<DbLine>): (es: seq<Option<DbLine>>)
    ensures |es| == |raws|
    ensures forall i :: 0 <= i < |raws| ==> es[i] == ReadLine(raws[i], decode)
  {
    seq(|raws|, i requires 0 <= i < |raws| => ReadLine(raws[i], decode))
  }

  /** The parsed lines of the journal file's text. */
  function ReadJournal(text: string, decode: string -> Option<DbLine>): seq<Option<DbLine>> {
    ReadLines(JournalFile.Lines(text), decode)
  }

  /** `LoadAllIssues`: an absent journal file gives no issues; otherwise the
      replay of its lines. The map's values are the returned list, whose order
      the source leaves unspecified. */
  function LoadAllIssues(file: Option<string>, decode: string -> Option<DbLine>, now: int): (issues: IssueMap)
    ensures file.None? ==> issues == map[]
    ensures KeysMatchIds(issues)
  {
    match file
    case None => map[]
    case Some(text) =>
      Replay(ReadJournal(text, decode), now)
  }

  /** `AppendEvent`: the serialised event and a line terminator are added at
      the end of the file, which is created when absent. */
  function AppendEvent(file: Option<string>, e: DbLine, encode: DbLine -> string): (after: string)
    ensures |after| == |file.GetOr([])| + |encode(e)| + |JournalFile.NewLine|
    ensures after[..|file.GetOr([])|] == file.GetOr([])
    ensures after[|file.GetOr([])|..] == encode(e) + JournalFile.NewLine
    ensures JournalFile.EndsAtLineBoundary(after)
  {
    JournalFile.AppendAllText(file, encode(e) + JournalFile.NewLine)
  }

  lemma AppendEventText(file: Option<string>, e: DbLine, encode: DbLine -> string)
    ensures AppendEvent(file, e, encode) == file.GetOr([]) + encode(e) + JournalFile.NewLine
  {
  }

  /** `AppendEvent` as it evidently should behave: when the file does not end
      at a line boundary (its last line was torn, say by a crash during a
      write), a line terminator is written first, so the event always starts
      a line of its own. */
  function AppendEventOnOwnLine(file: Option<string>, e: DbLine, encode: DbLine -> string): (after: string)
    ensures |after| >= |file.GetOr([])|
    ensures after[..|file.GetOr([])|] == file.GetOr([])
    ensures JournalFile.EndsAtLineBoundary(after)
  {
    var before := file.GetOr([]);
    if JournalFile.EndsAtLineBoundary(before) then AppendEvent(file, e, encode)
    else JournalFile.AppendAllText(file, JournalFile.NewLine + encode(e) + JournalFile.NewLine)
  }

  /** The journal's own serialiser writes `e` as one line that reads back as `e`. */
  predicate WritesOneLine(e: DbLine, encode: DbLine -> string, decode: string -> Option<DbLine>) {
    JournalFile.HasNoLineBreak(encode(e)) && ReadLine(encode(e), decode) == Some(e)
  }

  lemma ReadLinesConcat(a: seq<string>, b: seq<string>, decode: string -> Option<DbLine>)
    ensures ReadLines(a + b, decode) == ReadLines(a, decode) + ReadLines(b, decode)
  {
  }

  lemma ReadLinesSingleton(raw: string, decode: string -> Option<DbLine>)
    ensures ReadLines([raw], decode) == [ReadLine(raw, decode)]
  {
  }

  /** An absent journal file loads like an empty one. */
  lemma LoadIsReplay(file: Option<string>, decode: string -> Option<DbLine>, now: int)
    ensures LoadAllIssues(file, decode, now) == Replay(ReadJournal(file.GetOr([]), decode), now)
  {
    if file.None? {
      assert JournalFile.Lines([]) == [];
      assert ReadJournal([], decode) == [];
    }
  }

  /** A record appended with its terminator to a journal ending at a line
      boundary is read as one more line. */
  lemma ReadJournalAppendRecord(before: string, record: string, decode: string -> Option<DbLine>)
    requires JournalFile.EndsAtLineBoundary(before)
    requires JournalFile.HasNoLineBreak(record)
    ensures ReadJournal(before + record + JournalFile.NewLine, decode)
         == ReadJournal(before, decode) + [ReadLine(record, decode)]
  {
    JournalFile.AppendRecord(before, record);
    ReadLinesConcat(JournalFile.Lines(before), [record], decode);
    ReadLinesSingleton(record, decode);
  }

  /** Appending to a journal whose last line is terminated adds exactly one
      line, which reads back as the event. */
  lemma JournalAfterAppend(file: Option<string>, e: DbLine, encode: DbLine -> string,
                           decode: string -> Option<DbLine>)
    requires file.None? || JournalFile.EndsAtLineBoundary(file.value)
    requires WritesOneLine(e, encode, decode)
    ensures JournalFile.Lines(AppendEvent(file, e, encode))
         == JournalFile.Lines(file.GetOr([])) + [encode(e)]
    ensures ReadJournal(AppendEvent(file, e, encode), decode)
         == ReadJournal(file.GetOr([]), decode) + [Some(e)]
  {
    var before := file.GetOr([]);
    var json := encode(e);
    AppendEventText(file, e, encode);
    JournalFile.AppendRecord(before, json);
    ReadJournalAppendRecord(before, json, decode);
  }

  /** Loading after an append to a journal whose last line is terminated
      (always so for a journal written only by `AppendEvent`) is one more step
      of the fold. */
  lemma LoadAfterAppend(file: Option<string>, e: DbLine, encode: DbLine -> string,
                        decode: string -> Option<DbLine>, now: int)
    requires file.None? || JournalFile.EndsAtLineBoundary(file.value)
    requires WritesOneLine(e, encode, decode)
    ensures LoadAllIssues(Some(AppendEvent(file, e, encode)), decode, now)
         == Step(LoadAllIssues(file, decode, now), Some(e), now)
  {
    var after := AppendEvent(file, e, encode);
    JournalAfterAppend(file, e, encode, decode);
    LoadIsReplay(file, decode, now);
    LoadIsReplay(Some(after), decode, now);
    ReplayAppend(ReadJournal(file.GetOr([]), decode), Some(e), now);
  }

  /** As written, appending after a torn last line glues the record onto it:
      the two are read back as one line, so the event is replayed only if
      that glued text happens to deserialise. */
  lemma AppendAfterTornLine(prefix: string, torn: string, e: DbLine, encode: DbLine -> string,
                            decode: string -> Option<DbLine>, now: int)
    requires JournalFile.EndsAtLineBoundary(prefix)
    requires |torn| > 0 && JournalFile.HasNoLineBreak(torn)
    requires JournalFile.HasNoLineBreak(encode(e))
    ensures JournalFile.Lines(prefix + torn) == JournalFile.Lines(prefix) + [torn]
    ensures JournalFile.Lines(AppendEvent(Some(prefix + torn), e, encode))
         == JournalFile.Lines(prefix) + [torn + encode(e)]
    ensures JournalFile.Lines(AppendEvent(Some(prefix + torn), e, encode))
         != JournalFile.Lines(prefix + torn) + [encode(e)]
    ensures LoadAllIssues(Some(AppendEvent(Some(prefix + torn), e, encode)), decode, now)
         == Step(LoadAllIssues(Some(prefix), decode, now), ReadLine(torn + encode(e), decode), now)
  {
    var json := encode(e);
    var glued := torn + json;
    JournalFile.NoLineBreakConcat(torn, json);
    var after := AppendEvent(Some(prefix + torn), e, encode);
    AppendEventText(Some(prefix + torn), e, encode);
    JournalFile.Regroup(prefix, torn, json, JournalFile.NewLine);
    JournalFile.TornLastLine(prefix, torn);
    JournalFile.RecordAfterTornLine(prefix, torn, json);
    LoadAfterRecord(prefix, glued, decode, now);
  }

  /** Loading a journal after one more terminated record is one more step,
      fed with whatever that record reads back as. */
  lemma LoadAfterRecord(before: string, record: string, decode: string -> Option<DbLine>, now: int)
    requires JournalFile.EndsAtLineBoundary(before)
    requires JournalFile.HasNoLineBreak(record)
    ensures LoadAllIssues(Some(before + record + JournalFile.NewLine), decode, now)
         == Step(LoadAllIssues(Some(before), decode, now), ReadLine(record, decode), now)
  {
    ReadJournalAppendRecord(before, record, decode);
    LoadIsReplay(Some(before + record + JournalFile.NewLine), decode, now);
    LoadIsReplay(Some(before), decode, now);
    ReplayAppend(ReadJournal(before, decode), ReadLine(record, decode), now);
  }

  lemma AppendEventOnOwnLineText(file: Option<string>, e: DbLine, encode: DbLine -> string)
    ensures var before := file.GetOr([]);
      AppendEventOnOwnLine(file, e, encode)
      == (if JournalFile.EndsAtLineBoundary(before) then before else before + JournalFile.NewLine)
         + encode(e) + JournalFile.NewLine
  {
  }

  /** With the corrected append, every event becomes one new line whatever
      the state of the file's end. */
  lemma JournalAfterAppendOnOwnLine(file: Option<string>, e: DbLine, encode: DbLine -> string,
                                    decode: string -> Option<DbLine>)
    requires WritesOneLine(e, encode, decode)
    ensures JournalFile.Lines(AppendEventOnOwnLine(file, e, encode))
         == JournalFile.Lines(file.GetOr([])) + [encode(e)]
    ensures ReadJournal(AppendEventOnOwnLine(file, e, encode), decode)
         == ReadJournal(file.GetOr([]), decode) + [Some(e)]
  {
    var before := file.GetOr([]);
    var json := encode(e);
    AppendEventOnOwnLineText(file, e, encode);
    var start := if JournalFile.EndsAtLineBoundary(before) then before else before + JournalFile.NewLine;
    if !JournalFile.EndsAtLineBoundary(before) {
      JournalFile.TerminatingLastLine(before);
    }
    JournalFile.AppendRecord(start, json);
    ReadJournalAppendRecord(start, json, decode);
  }

  /** With the corrected append, loading afterwards is always one more step
      of the fold. */
  lemma LoadAfterAppendOnOwnLine(file: Option<string>, e: DbLine, encode: DbLine -> string,
                                 decode: string -> Option<DbLine>, now: int)
    requires WritesOneLine(e, encode, decode)
    ensures LoadAllIssues(Some(AppendEventOnOwnLine(file, e, encode)), decode, now)
         == Step(LoadAllIssues(file, decode, now), Some(e), now)
  {
    var after := AppendEventOnOwnLine(file, e, encode);
    JournalAfterAppendOnOwnLine(file, e, encode, decode);
    LoadIsReplay(Some(after), decode, now);
    LoadIsReplay(file, decode, now);
    ReplayAppend(ReadJournal(file.GetOr([]), decode), Some(e), now);
  }

  /** The events as the journal lines they become. */
  function AsLines(events: seq<DbLine>): (lines: seq<Option<DbLine>>)
    ensures |lines| == |events|
    ensures forall i :: 0 <= i < |events| ==> lines[i] == Some(events[i])
  {
    seq(|events|, i requires 0 <= i < |events| => Some(events[i]))
  }

  /** Appends the events in order, as the source does, one `AppendEvent` each. */
  function AppendAll(file: Option<string>, events: seq<DbLine>, encode: DbLine -> string): Option<string>
    decreases |events|
  {
    if |events| == 0 then file
    else AppendAll(Some(AppendEvent(file, events[0], encode)), events[1..], encode)
  }

  /** Loading a journal after a series of `AppendEvent` calls on a file that
      is absent or ends at a line boundary replays exactly those events on
      top of what the journal held before. */
  lemma {:induction false} LoadAfterAppendAll(file: Option<string>, events: seq<DbLine>, encode: DbLine -> string,
                                              decode: string -> Option<DbLine>, now: int)
    requires file.None? || JournalFile.EndsAtLineBoundary(file.value)
    requires forall e :: e in events ==> WritesOneLine(e, encode, decode)
    ensures LoadAllIssues(AppendAll(file, events, encode), decode, now)
         == ReplayFrom(LoadAllIssues(file, decode, now), AsLines(events), now)
    decreases |events|
  {
    if |events| > 0 {
      var next := Some(AppendEvent(file, events[0], encode));
      assert events[0] in events;
      LoadAfterAppend(file, events[0], encode, decode, now);
      assert forall e :: e in events[1..] ==> e in events;
      LoadAfterAppendAll(next, events[1..], encode, decode, now);
      AsLinesCons(LoadAllIssues(file, decode, now), events, now);
    }
  }

  /** Appends the events in order with the corrected append. */
  function AppendAllOnOwnLine(file: Option<string>, events: seq<DbLine>, encode: DbLine -> string): Option<string>
    decreases |events|
  {
    if |events| == 0 then file
    else AppendAllOnOwnLine(Some(AppendEventOnOwnLine(file, events[0], encode)), events[1..], encode)
  }

  /** With the corrected append, loading after a series of appends replays
      exactly those events on top of what the journal held before, whatever
      the state of the file's end. */
  lemma {:induction false} LoadAfterAppendAllOnOwnLine(file: Option<string>, events: seq<DbLine>, encode: DbLine -> string,
                                                       decode: string -> Option<DbLine>, now: int)
    requires forall e :: e in events ==> WritesOneLine(e, encode, decode)
    ensures LoadAllIssues(AppendAllOnOwnLine(file, events, encode), decode, now)
         == ReplayFrom(LoadAllIssues(file, decode, now), AsLines(events), now)
    decreases |events|
  {
    if |events| > 0 {
      var next := Some(AppendEventOnOwnLine(file, events[0], encode));
      assert events[0] in events;
      LoadAfterAppendOnOwnLine(file, events[0], encode, decode, now);
      assert forall e :: e in events[1..] ==> e in events;
      LoadAfterAppendAllOnOwnLine(next, events[1..], encode, decode, now);
      AsLinesCons(LoadAllIssues(file, decode, now), events, now);
    }
  }

  lemma AsLinesCons(state: IssueMap, events: seq<DbLine>, now: int)
    requires |events| > 0
    ensures ReplayFrom(state, AsLines(events), now)
         == ReplayFrom(Step(state, Some(events[0]), now), AsLines(events[1..]), now)
  {
    assert AsLines(events)[1..] == AsLines(events[1..]);
  }
}
