/** Properties that relate several requests to one another. */
module Scenarios {
  import opened Optional
  import opened Records
  import opened Responses
  import opened Users
  import opened Exercises
  import opened Logs

  /** An exercise appended for an existing user shows up at the end of that
      user's uncapped log exactly when its date lies within the range, and
      every earlier entry stays as it was. */
  lemma AppendThenLog(st: Store, userId: Id, description: string, duration: int,
                      date: Option<Timestamp>, now: Timestamp,
                      from: Option<Timestamp>, to: Option<Timestamp>)
    requires FindUser(st.users, userId).Some?
    requires description != "" && duration != 0
    ensures var st' := AppendExercise(st, userId, Some(description), Some(duration), date, now).1;
            var before := GetLog(st, userId, from, to, Omitted).0;
            var after := GetLog(st', userId, from, to, Omitted).0;
            var d := if date.Some? then date.value else now;
            var inRange := (from.Some? ==> d >= from.value) && (to.Some? ==> d <= to.value);
            && after.Log? && before.Log?
            && after.username == before.username
            && after.log == before.log + (if inRange then [LogEntry(description, duration, d)] else [])
            && after.count == before.count + (if inRange then 1 else 0)
  {
    var st' := AppendExercise(st, userId, Some(description), Some(duration), date, now).1;
    var d := if date.Some? then date.value else now;
    var e := Exercise(st.nextId, userId, description, duration, d);
    var q := Query(userId, from, to);
    assert st'.users == st.users;
    assert st'.exercises == st.exercises + [e];
    FindAppend(st.exercises, e, q);
    var found := Find(st.exercises, q);
    assert GetLog(st, userId, from, to, Omitted).0.log == Entries(found);
    assert GetLog(st', userId, from, to, Omitted).0.log == Entries(Find(st.exercises + [e], q));
    EntriesAppend(found, e);
  }

  /** Appending N exercises and querying from the earliest to the latest of
      their dates returns all of them: an inclusive range covering every
      date of the user's exercises yields the same log as no range. */
  lemma CoveringRangeReturnsAll(st: Store, userId: Id, lo: Timestamp, hi: Timestamp, limit: LimitArg)
    requires FindUser(st.users, userId).Some?
    requires forall e :: e in st.exercises && e.userId == userId ==> lo <= e.date <= hi
    ensures GetLog(st, userId, Some(lo), Some(hi), limit) == GetLog(st, userId, None, None, limit)
  {
    CoveringRangeFindsAll(st.exercises, userId, lo, hi);
  }

  /** The walk-through: register "alice", log a 30-minute run without a
      date, and read the log back. */
  lemma AliceWalkThrough(now: Timestamp)
    ensures var (created, st1) := CreateUser(EmptyStore, Some("alice"));
            var (added, st2) := AppendExercise(st1, created.id, Some("run"), Some(30), None, now);
            var (log, st3) := GetLog(st2, created.id, None, None, Omitted);
            && created == UserCreated("alice", 0)
            && added == ExerciseAdded("alice", "run", 30, now, 0)
            && log == Log("alice", 1, 0, [LogEntry("run", 30, now)])
            && st3 == st2
  {
  }
}
