/**
 The two records of the journal: the event written as one journal line, and
 the issue reconstructed from the events. Timestamps (`DateTime`) are tick
 counts. C# strings in `IssueRow` are non-nullable, and Dafny strings are never
 null, so every reconstructed row has an application, a title, a description
 and notes by construction.
 */
module Models {
  import opened Wrappers

  /** One journal event; every field may be absent (null) in the JSON line.
      `eventType` is the JSON `type` property. */
  datatype DbLine = DbLine(
    eventType: Option<string>,
    id: Option<string>,
    application: Option<string>,
    title: Option<string>,
    description: Option<string>,
    notes: Option<string>,
    whenUtc: Option<int>
  )

  /** The current state of one issue. */
  datatype IssueRow = IssueRow(
    id: string,
    done: bool,
    application: string,
    title: string,
    description: string,
    notes: string,
    createdUtc: int
  )
}
