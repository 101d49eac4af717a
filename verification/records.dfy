/** The two collections of the document store the service writes to: users
    and exercises, each held as a sequence in insertion order, which this
    model takes to be the order the store returns them in. */
module Records {
  import opened Optional

  /** An opaque document identifier handed out by the store. */
  type Id = nat

  /** A date as the number of milliseconds since the epoch, the value a
      JavaScript `Date` carries. */
  type Timestamp = int

  /** A registered identity; `username` is unique across the collection. */
  datatype User = User(id: Id, username: string)

  /** One logged activity; `userId` refers to a User by its `id`. */
  datatype Exercise = Exercise(
    id: Id,
    userId: Id,
    description: string,
    duration: int,
    date: Timestamp)

  /** The store: both collections, and the next identifier it will assign
      (identifiers are unique across both collections, like ObjectIds). */
  datatype Store = Store(users: seq<User>, exercises: seq<Exercise>, nextId: Id)

  const EmptyStore: Store := Store([], [], 0)

  /** The schema's `unique: true` index on `username`. */
  predicate UniqueUsernames(users: seq<User>) {
    forall i, j :: 0 <= i < j < |users| ==> users[i].username != users[j].username
  }

  /** Whether the unique index already holds `name`. */
  predicate UsernameTaken(users: seq<User>, name: string) {
    exists i :: 0 <= i < |users| && users[i].username == name
  }

  /** What the store guarantees between requests: the unique index holds,
      every identifier was handed out before, and no identifier is reused. */
  predicate Valid(st: Store) {
    && UniqueUsernames(st.users)
    && (forall i :: 0 <= i < |st.users| ==> st.users[i].id < st.nextId)
    && (forall i, j :: 0 <= i < j < |st.users| ==> st.users[i].id != st.users[j].id)
    && (forall i :: 0 <= i < |st.exercises| ==> st.exercises[i].id < st.nextId)
    && (forall i, j :: 0 <= i < j < |st.exercises| ==> st.exercises[i].id != st.exercises[j].id)
  }

  /** `User.findById(id)`: the user with that identifier, if any. */
  function FindUser(users: seq<User>, id: Id): (r: Option<User>)
    ensures r.Some? ==> r.value in users && r.value.id == id
    ensures r.None? <==> forall i :: 0 <= i < |users| ==> users[i].id != id
  {
    if |users| == 0 then None
    else if users[0].id == id then Some(users[0])
    else FindUser(users[1..], id)
  }

  /** With identifiers unique, looking up a stored user's id finds that user. */
  lemma {:induction false} FindStoredUser(users: seq<User>, k: nat)
    requires k < |users|
    requires forall i, j :: 0 <= i < j < |users| ==> users[i].id != users[j].id
    ensures FindUser(users, users[k].id) == Some(users[k])
  {
    if k > 0 {
      assert users[0].id != users[k].id;
      FindStoredUser(users[1..], k - 1);
    }
  }
}
