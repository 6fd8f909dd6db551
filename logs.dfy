/** The in-memory log: what each entry records, abstracted from its
    formatted text to a severity and the event it reports. */
module Logs {
  import opened Outcomes
  import opened Books

  datatype Level = Info | Warning | Error

  /** The numeric severity the logging framework gives each level. */
  function Severity(l: Level): (n: int)
  {
    match l
    case Info => 20
    case Warning => 30
    case Error => 40
  }

  /** The root logger's threshold (INFO): entries below it are dropped. */
  const RootThreshold := 20

  /** The events the handlers report, with the parameters they interpolate. */
  datatype Message =
    | ListRequested(skip: int, limit: int)
    | NoBooksFound
    | GetRequested(getId: int)
    | BookNotFound(missingId: int)
    | SearchRequested(titulo: Option<string>, autor: Option<string>)
    | NoSearchMatch
    | AddRequested(livro: Livro)
    | DuplicateId(duplicateId: int)
    | UpdateRequested(updateId: int)
    | UpdateTargetMissing(updateMissingId: int)
    | DeleteRequested(deleteId: int)
    | DeleteTargetMissing(deleteMissingId: int)
    | HomepageAccessed
    | NoLogsFound

  datatype LogEntry = LogEntry(level: Level, message: Message)
}
