/** What the route handlers send back: a success payload or an error body
    with its HTTP status. */
module Responses {
  import opened Records

  const BadRequest: int := 400
  const NotFound: int := 404
  const ServerError: int := 500

  const UsernameRequired: string := "username is required"
  const DescriptionAndDurationRequired: string := "description and duration are required"
  const UserNotFound: string := "user not found"
  /** Stands for the driver's duplicate-key message, which the handler passes
      through verbatim; its exact text is not part of this model. */
  const DuplicateKey: string := "E11000 duplicate key error"

  /** One element of a log; the date is the stored value, not its
      `toDateString()` rendering. */
  datatype LogEntry = LogEntry(description: string, duration: int, date: Timestamp)

  datatype Response =
    | UserCreated(username: string, id: Id)
    | UserList(users: seq<User>)
    | ExerciseAdded(username: string, description: string, duration: int, date: Timestamp, id: Id)
    | Log(username: string, count: nat, id: Id, log: seq<LogEntry>)
    | Error(status: int, message: string)

  function ToEntry(e: Exercise): LogEntry {
    LogEntry(e.description, e.duration, e.date)
  }

  /** `exercises.map(ex => ({description, duration, date}))`. */
  function Entries(s: seq<Exercise>): seq<LogEntry> {
    seq(|s|, k requires 0 <= k < |s| => ToEntry(s[k]))
  }

  lemma EntriesAppend(s: seq<Exercise>, e: Exercise)
    ensures Entries(s + [e]) == Entries(s) + [ToEntry(e)]
  {
    assert forall k :: 0 <= k < |s| ==> (s + [e])[k] == s[k];
  }
}
