/** `POST /api/users/:_id/exercises`: validate, persist the exercise, and
    only then look the user up. */
module Exercises {
  import opened Optional
  import opened Records
  import opened Responses
  import opened Users

  /** JavaScript truthiness of an optional number: present and not zero. */
  predicate Truthy(n: Option<int>) {
    n.Some? && n.value != 0
  }

  /** The handler's `date ? new Date(date) : new Date()`: the supplied date,
      else the current time. */
  function DateOrNow(date: Option<Timestamp>, now: Timestamp): Timestamp
  {
    match date
    case Some(t) => t
    case None => now
  }

  /** Save one exercise document under a fresh id. */
  function Save(st: Store, userId: Id, description: string, duration: int, date: Timestamp): Store {
    Store(st.users, st.exercises + [Exercise(st.nextId, userId, description, duration, date)], st.nextId + 1)
  }

  /** The handler: a falsy description or duration is a 400 and writes
      nothing. Otherwise the exercise is saved first, with `now` standing in
      for `Date.now` when no date was supplied, and the user is looked up in
      the store after the save; a missing user is a 404 that leaves the saved
      exercise in place. */
  function AppendExercise(st: Store, userId: Id, description: Option<string>, duration: Option<int>,
                          date: Option<Timestamp>, now: Timestamp): (r: (Response, Store))
    ensures !Present(description) || !Truthy(duration) ==>
              r == (Error(BadRequest, DescriptionAndDurationRequired), st)
    ensures Present(description) && Truthy(duration) ==>
              && r.1.users == st.users
              && r.1.nextId > st.nextId
              && |r.1.exercises| == |st.exercises| + 1
              && r.1.exercises[..|st.exercises|] == st.exercises
              && r.1.exercises[|st.exercises|]
                 == Exercise(st.nextId, userId, description.value, duration.value,
                             if date.Some? then date.value else now)
    ensures Present(description) && Truthy(duration) ==>
              (r.0.Error? <==> FindUser(st.users, userId).None?)
    ensures r.0.Error? || r.0.ExerciseAdded?
    ensures Present(description) && Truthy(duration) && FindUser(st.users, userId).None? ==>
              r.0 == Error(NotFound, UserNotFound)
    ensures r.0.Error? ==> r.0.status == BadRequest || r.0.status == NotFound
    ensures r.0.ExerciseAdded? ==>
              && FindUser(st.users, userId).Some?
              && r.0.username == FindUser(st.users, userId).value.username
              && r.0.id == userId
              && r.0.description == description.value
              && r.0.duration == duration.value
              && r.0.date == r.1.exercises[|st.exercises|].date
  {
    if !Present(description) || !Truthy(duration) then
      (Error(BadRequest, DescriptionAndDurationRequired), st)
    else
      var exerciseDate := DateOrNow(date, now);
      var saved := Save(st, userId, description.value, duration.value, exerciseDate);
      match FindUser(saved.users, userId)
      case None => (Error(NotFound, UserNotFound), saved)
      case Some(user) =>
        (ExerciseAdded(user.username, description.value, duration.value, exerciseDate, userId), saved)
  }

  /** Appending keeps the store's invariant, whether or not the user exists. */
  lemma AppendPreservesValid(st: Store, userId: Id, description: Option<string>, duration: Option<int>,
                             date: Option<Timestamp>, now: Timestamp)
    requires Valid(st)
    ensures Valid(AppendExercise(st, userId, description, duration, date, now).1)
  {
  }

  /** The persist-then-verify order is observable: a well-formed append for
      an unknown user answers 404, yet the store now holds one more
      exercise, owned by a user that does not exist. */
  lemma OrphanOnUnknownUser(st: Store, userId: Id, description: string, duration: int,
                            date: Option<Timestamp>, now: Timestamp)
    requires description != "" && duration != 0
    requires FindUser(st.users, userId).None?
    ensures var (resp, st') := AppendExercise(st, userId, Some(description), Some(duration), date, now);
            && resp == Error(NotFound, UserNotFound)
            && |st'.exercises| == |st.exercises| + 1
            && st'.exercises[|st.exercises|].userId == userId
            && FindUser(st'.users, userId).None?
  {
  }
}
