/**
 What one journal line does to the reconstructed issues, event kind by event
 kind, and what a whole replay yields for one issue id, stated independently
 of the fold: whether the id is present, when it was created and whether it
 is done.
 */
module JournalProperties {
  import opened Wrappers
  import opened Text
  import opened Models
  import opened IssueRepository

  /** A line the fold skips: blank, unparseable or null (`None`), a null or
      white-space type or id, or a type other than the five known ones. */
  predicate IsInert(line: Option<DbLine>) {
    line.None? || !IsActionable(line.value) || KindOf(line.value.eventType.value).None?
  }

  /** The five type strings are not blank, so an event carrying one of them
      and a non-blank id passes the validity filter. */
  lemma KindNamesAreNotBlank()
    ensures !IsBlank("add") && !IsBlank("resolve") && !IsBlank("reopen")
    ensures !IsBlank("delete") && !IsBlank("update")
  {
    assert !IsWhiteSpace("add"[0]) && !IsWhiteSpace("resolve"[0]) && !IsWhiteSpace("reopen"[0]);
    assert !IsWhiteSpace("delete"[0]) && !IsWhiteSpace("update"[0]);
  }

  /** Skipped lines leave the issues unchanged, even when every other field of
      the event is present. */
  lemma StepInert(state: IssueMap, line: Option<DbLine>, now: int)
    requires IsInert(line)
    ensures Step(state, line, now) == state
  {
  }

  /** The type dispatch is exact: a type that differs from the five kinds in
      any way, case included, is skipped. */
  lemma UnknownTypeIsInert(e: DbLine)
    requires e.eventType.Some?
    requires e.eventType.value !in {"add", "resolve", "reopen", "delete", "update"}
    ensures IsInert(Some(e))
  {
  }

  /** `add` creates or overwrites the issue with a fresh, open row; an absent
      title becomes the placeholder, absent texts become empty, an absent
      time becomes the processing time; no other issue changes. */
  lemma StepAdd(state: IssueMap, e: DbLine, now: int)
    requires e.eventType == Some("add") && e.id.Some? && !IsBlank(e.id.value)
    ensures var next := Step(state, Some(e), now); var id := e.id.value;
      && next.Keys == state.Keys + {id}
      && next[id].id == id
      && !next[id].done
      && next[id].application == (if e.application.Some? then e.application.value else "")
      && next[id].title == (if e.title.Some? then e.title.value else Untitled)
      && next[id].description == (if e.description.Some? then e.description.value else "")
      && next[id].notes == (if e.notes.Some? then e.notes.value else "")
      && next[id].createdUtc == (if e.whenUtc.Some? then e.whenUtc.value else now)
      && forall k :: k in state && k != id ==> next[k] == state[k]
  {
    KindNamesAreNotBlank();
  }

  /** `resolve` marks a present issue done and changes nothing else; on an
      absent id it does nothing. */
  lemma StepResolve(state: IssueMap, e: DbLine, now: int)
    requires e.eventType == Some("resolve") && e.id.Some? && !IsBlank(e.id.value)
    ensures var next := Step(state, Some(e), now); var id := e.id.value;
      && next.Keys == state.Keys
      && (id in state ==> next[id] == state[id].(done := true))
      && forall k :: k in state && k != id ==> next[k] == state[k]
  {
    KindNamesAreNotBlank();
  }

  /** `reopen` marks a present issue open and changes nothing else; on an
      absent id it does nothing. */
  lemma StepReopen(state: IssueMap, e: DbLine, now: int)
    requires e.eventType == Some("reopen") && e.id.Some? && !IsBlank(e.id.value)
    ensures var next := Step(state, Some(e), now); var id := e.id.value;
      && next.Keys == state.Keys
      && (id in state ==> next[id] == state[id].(done := false))
      && forall k :: k in state && k != id ==> next[k] == state[k]
  {
    KindNamesAreNotBlank();
  }

  /** `update` replaces, on a present issue, exactly the texts the event
      carries (an empty string does replace); id, done flag and creation time
      stay. On an absent id it does nothing. */
  lemma StepUpdate(state: IssueMap, e: DbLine, now: int)
    requires e.eventType == Some("update") && e.id.Some? && !IsBlank(e.id.value)
    ensures var next := Step(state, Some(e), now); var id := e.id.value;
      && next.Keys == state.Keys
      && (id in state ==>
            && next[id].id == state[id].id
            && next[id].done == state[id].done
            && next[id].createdUtc == state[id].createdUtc
            && next[id].application == (if e.application.Some? then e.application.value else state[id].application)
            && next[id].title == (if e.title.Some? then e.title.value else state[id].title)
            && next[id].description == (if e.description.Some? then e.description.value else state[id].description)
            && next[id].notes == (if e.notes.Some? then e.notes.value else state[id].notes))
      && forall k :: k in state && k != id ==> next[k] == state[k]
  {
    KindNamesAreNotBlank();
  }

  /** `delete` removes the issue if present and touches no other one. */
  lemma StepDelete(state: IssueMap, e: DbLine, now: int)
    requires e.eventType == Some("delete") && e.id.Some? && !IsBlank(e.id.value)
    ensures var next := Step(state, Some(e), now);
      && next.Keys == state.Keys - {e.id.value}
      && forall k :: k in next ==> next[k] == state[k]
  {
    KindNamesAreNotBlank();
  }

  /** Only `add` reads the event time or the processing time: for every other
      kind both are irrelevant. */
  lemma TimeOnlyMattersForAdd(state: IssueMap, e: DbLine, when: Option<int>, now1: int, now2: int)
    requires e.eventType != Some("add")
    ensures Step(state, Some(e), now1) == Step(state, Some(e.(whenUtc := when)), now2)
  {
  }

  /** A present issue keeps its creation time through every line except an
      `add` of its id. */
  lemma StepKeepsCreated(state: IssueMap, line: Option<DbLine>, k: string, now: int)
    requires k in state && k in Step(state, line, now)
    requires !IsEventFor(line, k, "add")
    ensures Step(state, line, now)[k].createdUtc == state[k].createdUtc
  {
  }

  /** A present issue keeps its done flag through every line except an `add`,
      `resolve` or `reopen` of its id. */
  lemma StepKeepsDone(state: IssueMap, line: Option<DbLine>, k: string, now: int)
    requires k in state && k in Step(state, line, now)
    requires !IsEventFor(line, k, "add") && !IsEventFor(line, k, "resolve") && !IsEventFor(line, k, "reopen")
    ensures Step(state, line, now)[k].done == state[k].done
  {
  }

  /** Line `i` is an `add` of `k` after which no line adds or deletes `k`. */
  ghost predicate LiveAddAt(lines: seq<Option<DbLine>>, k: string, i: int) {
    && 0 <= i < |lines|
    && IsEventFor(lines[i], k, "add")
    && forall j :: i < j < |lines| ==> !IsEventFor(lines[j], k, "add") && !IsEventFor(lines[j], k, "delete")
  }

  /** After line `i`, some line resolves `k` and no later line reopens it. */
  ghost predicate ResolvedSince(lines: seq<Option<DbLine>>, k: string, i: int) {
    exists j :: 0 <= i < j < |lines| && IsEventFor(lines[j], k, "resolve")
      && forall j' :: j < j' < |lines| ==> !IsEventFor(lines[j'], k, "reopen")
  }

  lemma LiveAddAtSnoc(init: seq<Option<DbLine>>, last: Option<DbLine>, k: string, i: int)
    requires 0 <= i < |init|
    ensures LiveAddAt(init + [last], k, i)
        <==> LiveAddAt(init, k, i) && !IsEventFor(last, k, "add") && !IsEventFor(last, k, "delete")
  {
    var lines := init + [last];
    assert lines[|init|] == last;
    assert forall j :: 0 <= j < |init| ==> lines[j] == init[j];
    if LiveAddAt(init, k, i) && !IsEventFor(last, k, "add") && !IsEventFor(last, k, "delete") {
      forall j | i < j < |lines|
        ensures !IsEventFor(lines[j], k, "add") && !IsEventFor(lines[j], k, "delete")
      {
        if j < |init| {
          assert lines[j] == init[j];
        }
      }
    }
    if LiveAddAt(lines, k, i) {
      forall j | i < j < |init|
        ensures !IsEventFor(init[j], k, "add") && !IsEventFor(init[j], k, "delete")
      {
        assert lines[j] == init[j];
      }
    }
  }

  /** An issue is present after a replay exactly when some `add` of its id is
      followed by no other `add` or `delete` of it, and it then carries the
      creation time of that `add`. */
  lemma {:induction false} ReplayOfKey(lines: seq<Option<DbLine>>, k: string, now: int)
    ensures k in Replay(lines, now) <==> exists i :: LiveAddAt(lines, k, i)
    ensures forall i :: LiveAddAt(lines, k, i) ==>
      Replay(lines, now)[k].createdUtc == lines[i].value.whenUtc.GetOr(now)
    decreases |lines|
  {
    if |lines| > 0 {
      var init := lines[..|lines| - 1];
      var last := lines[|lines| - 1];
      assert lines == init + [last];
      ReplayAppend(init, last, now);
      ReplayOfKey(init, k, now);
      var before := Replay(init, now);
      var after := Replay(lines, now);
      forall i | 0 <= i < |init|
        ensures LiveAddAt(lines, k, i)
            <==> LiveAddAt(init, k, i) && !IsEventFor(last, k, "add") && !IsEventFor(last, k, "delete")
      {
        LiveAddAtSnoc(init, last, k, i);
      }
      if IsEventFor(last, k, "add") {
        StepAdd(before, last.value, now);
        assert LiveAddAt(lines, k, |init|);
        forall i | LiveAddAt(lines, k, i)
          ensures i == |init|
        {
        }
      } else if IsEventFor(last, k, "delete") {
        StepDelete(before, last.value, now);
        forall i | LiveAddAt(lines, k, i)
          ensures false
        {
        }
      } else {
        assert k in after <==> k in before;
        forall i | LiveAddAt(lines, k, i)
          ensures after[k].createdUtc == lines[i].value.whenUtc.GetOr(now)
        {
          assert LiveAddAt(init, k, i);
          StepKeepsCreated(before, last, k, now);
        }
        if exists i :: LiveAddAt(init, k, i) {
          var i :| LiveAddAt(init, k, i);
          assert LiveAddAt(lines, k, i);
        }
      }
    }
  }

  /** A present issue is done exactly when, since its live `add`, some line
      resolved it and no later line reopened it. */
  lemma {:induction false} ReplayDone(lines: seq<Option<DbLine>>, k: string, i: int, now: int)
    requires LiveAddAt(lines, k, i)
    ensures k in Replay(lines, now)
    ensures Replay(lines, now)[k].done <==> ResolvedSince(lines, k, i)
    decreases |lines|
  {
    ReplayOfKey(lines, k, now);
    var init := lines[..|lines| - 1];
    var last := lines[|lines| - 1];
    assert lines == init + [last];
    ReplayAppend(init, last, now);
    var before := Replay(init, now);
    if i == |init| {
      StepAdd(before, last.value, now);
    } else {
      LiveAddAtSnoc(init, last, k, i);
      ReplayDone(init, k, i, now);
      assert forall j :: 0 <= j < |init| ==> lines[j] == init[j];
      if IsEventFor(last, k, "resolve") {
        StepResolve(before, last.value, now);
        assert IsEventFor(lines[|init|], k, "resolve");
      } else if IsEventFor(last, k, "reopen") {
        StepReopen(before, last.value, now);
        assert IsEventFor(lines[|init|], k, "reopen");
      } else {
        StepKeepsDone(before, last, k, now);
        if ResolvedSince(lines, k, i) {
          var j :| 0 <= i < j < |lines| && IsEventFor(lines[j], k, "resolve")
            && forall j' :: j < j' < |lines| ==> !IsEventFor(lines[j'], k, "reopen");
          assert j < |init|;
          assert ResolvedSince(init, k, i);
        }
        if ResolvedSince(init, k, i) {
          var j :| 0 <= i < j < |init| && IsEventFor(init[j], k, "resolve")
            && forall j' :: j < j' < |init| ==> !IsEventFor(init[j'], k, "reopen");
          assert IsEventFor(lines[j], k, "resolve");
          assert ResolvedSince(lines, k, i);
        }
      }
    }
  }

  /** An absent issue stays absent until a line adds it again: `resolve`,
      `reopen`, `update` and `delete` of a deleted id change nothing. */
  lemma {:induction false} AbsentUntilAdded(state: IssueMap, lines: seq<Option<DbLine>>, k: string, now: int)
    requires k !in state
    requires forall j :: 0 <= j < |lines| ==> !IsEventFor(lines[j], k, "add")
    ensures k !in ReplayFrom(state, lines, now)
    decreases |lines|
  {
    if |lines| > 0 {
      AbsentUntilAdded(Step(state, lines[0], now), lines[1..], k, now);
    }
  }

  /** After `delete X`, any later lines other than an `add` of X leave X absent. */
  lemma DeleteThenStaleEvents(before: seq<Option<DbLine>>, del: DbLine, after: seq<Option<DbLine>>, now: int)
    requires del.eventType == Some("delete") && del.id.Some? && !IsBlank(del.id.value)
    requires forall j :: 0 <= j < |after| ==> !IsEventFor(after[j], del.id.value, "add")
    ensures del.id.value !in Replay(before + [Some(del)] + after, now)
  {
    var k := del.id.value;
    ReplayAppend(before, Some(del), now);
    StepDelete(Replay(before, now), del, now);
    ReplayFromConcat(map[], before + [Some(del)], after, now);
    AbsentUntilAdded(Replay(before + [Some(del)], now), after, k, now);
  }

  /** A skipped line can be removed from anywhere in the journal without
      changing the replay: a corrupt line contributes nothing. */
  lemma DropInertLine(a: seq<Option<DbLine>>, line: Option<DbLine>, b: seq<Option<DbLine>>, now: int)
    requires IsInert(line)
    ensures Replay(a + [line] + b, now) == Replay(a + b, now)
  {
    ReplayFromConcat(map[], a + [line], b, now);
    ReplayFromConcat(map[], a, b, now);
    ReplayAppend(a, line, now);
    StepInert(Replay(a, now), line, now);
  }

  /** Replay order is line order, not event time: `add` then `update` shows
      the updated title, the two lines swapped show the added one. */
  lemma LineOrderDecides(add: DbLine, update: DbLine, now: int)
    requires add.eventType == Some("add") && update.eventType == Some("update")
    requires add.id.Some? && !IsBlank(add.id.value) && update.id == add.id
    requires update.title.Some?
    ensures add.id.value in Replay([Some(add), Some(update)], now)
    ensures Replay([Some(add), Some(update)], now)[add.id.value].title == update.title.value
    ensures add.id.value in Replay([Some(update), Some(add)], now)
    ensures Replay([Some(update), Some(add)], now)[add.id.value].title == add.title.GetOr(Untitled)
  {
    var a := Some(add);
    var u := Some(update);
    ReplayAppend([], a, now);
    ReplayAppend([a], u, now);
    ReplayAppend([], u, now);
    ReplayAppend([u], a, now);
    assert [a, u] == [a] + [u] && [u, a] == [u] + [a];
    assert [] + [a] == [a] && [] + [u] == [u];
    StepAdd(map[], add, now);
    StepUpdate(Step(map[], a, now), update, now);
    StepUpdate(map[], update, now);
    StepAdd(Step(map[], u, now), add, now);
  }

  /** An `add` line that carries its event time: the only kind of line whose
      effect could depend on the clock no longer does. */
  predicate CarriesTime(line: Option<DbLine>) {
    line.Some? && line.value.eventType == Some("add") ==> line.value.whenUtc.Some?
  }

  /** When every `add` line carries its time, as every line the form writes
      does, the replay does not depend on when it runs: loading the same file
      twice gives the same issues. */
  lemma {:induction false} ReplayIgnoresNow(state: IssueMap, lines: seq<Option<DbLine>>, now1: int, now2: int)
    requires forall i :: 0 <= i < |lines| ==> CarriesTime(lines[i])
    ensures ReplayFrom(state, lines, now1) == ReplayFrom(state, lines, now2)
    decreases |lines|
  {
    if |lines| > 0 {
      var next := Step(state, lines[0], now1);
      assert Step(state, lines[0], now2) == next by {
        StepIgnoresNow(state, lines[0], now1, now2);
      }
      assert ReplayFrom(next, lines[1..], now1) == ReplayFrom(next, lines[1..], now2) by {
        ReplayIgnoresNow(next, lines[1..], now1, now2);
      }
    }
  }

  lemma StepIgnoresNow(state: IssueMap, line: Option<DbLine>, now1: int, now2: int)
    requires CarriesTime(line)
    ensures Step(state, line, now1) == Step(state, line, now2)
  {
  }

  /** The same for loading a journal file. */
  lemma LoadIgnoresNow(file: Option<string>, decode: string -> Option<DbLine>, now1: int, now2: int)
    requires var lines := ReadJournal(file.GetOr([]), decode);
      forall i :: 0 <= i < |lines| ==> CarriesTime(lines[i])
    ensures LoadAllIssues(file, decode, now1) == LoadAllIssues(file, decode, now2)
  {
    LoadIsReplay(file, decode, now1);
    LoadIsReplay(file, decode, now2);
    ReplayIgnoresNow(map[], ReadJournal(file.GetOr([]), decode), now1, now2);
  }

  /** A hand-written `add` line without a time takes the clock reading of the
      load as its creation time, so two loads of the same journal at different
      times disagree. */
  lemma UntimedAddDependsOnNow(id: string, now1: int, now2: int)
    requires !IsBlank(id) && now1 != now2
    ensures var line := Some(DbLine(Some("add"), Some(id), None, None, None, None, None));
      && !CarriesTime(line)
      && Replay([line], now1) != Replay([line], now2)
  {
    var e := DbLine(Some("add"), Some(id), None, None, None, None, None);
    assert [] + [Some(e)] == [Some(e)];
    ReplayAppend([], Some(e), now1);
    ReplayAppend([], Some(e), now2);
    StepAdd(map[], e, now1);
    StepAdd(map[], e, now2);
    assert Replay([Some(e)], now1)[id].createdUtc != Replay([Some(e)], now2)[id].createdUtc;
  }
}
