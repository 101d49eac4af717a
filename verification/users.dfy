/** The identity store: `POST /api/users` and `GET /api/users`. */
module Users {
  import opened Optional
  import opened Records
  import opened Responses

  /** JavaScript truthiness of an optional string field: present and non-empty. */
  predicate Present(s: Option<string>) {
    s.Some? && s.value != ""
  }

  /** How many stored users carry `name`. */
  function Occurrences(users: seq<User>, name: string): nat {
    if |users| == 0 then 0
    else (if users[0].username == name then 1 else 0) + Occurrences(users[1..], name)
  }

  /** `POST /api/users`: reject a falsy username with 400; let the unique
      index reject a taken one with 500; otherwise save the new user and
      echo its username and assigned id. Failures write nothing. */
  function CreateUser(st: Store, username: Option<string>): (r: (Response, Store))
    ensures !Present(username) ==> r == (Error(BadRequest, UsernameRequired), st)
    ensures Present(username) && UsernameTaken(st.users, username.value) ==>
              r.0.Error? && r.0.status == ServerError && r.1 == st
    ensures r.0.Error? <==> !Present(username) || UsernameTaken(st.users, username.value)
    ensures Present(username) && !UsernameTaken(st.users, username.value) ==> r.0.UserCreated?
    ensures r.0.UserCreated? ==>
              && r.0.username == username.value
              && r.1.exercises == st.exercises
              && |r.1.users| == |st.users| + 1
              && r.1.users[..|st.users|] == st.users
              && r.1.users[|st.users|] == User(r.0.id, r.0.username)
              && r.0.id == st.nextId < r.1.nextId
  {
    if !Present(username) then
      (Error(BadRequest, UsernameRequired), st)
    else if UsernameTaken(st.users, username.value) then
      (Error(ServerError, DuplicateKey), st)
    else
      var user := User(st.nextId, username.value);
      (UserCreated(user.username, user.id), Store(st.users + [user], st.exercises, st.nextId + 1))
  }

  /** `GET /api/users`: every stored user, id and username only, in
      insertion order; nothing is written. */
  function ListUsers(st: Store): (r: (Response, Store))
    ensures r.1 == st
    ensures r.0.UserList? && |r.0.users| == |st.users|
    ensures forall k :: 0 <= k < |st.users| ==>
              r.0.users[k].id == st.users[k].id && r.0.users[k].username == st.users[k].username
  {
    (UserList(seq(|st.users|, k requires 0 <= k < |st.users| => User(st.users[k].id, st.users[k].username))), st)
  }

  lemma {:induction false} OccurrencesAppend(users: seq<User>, u: User, name: string)
    ensures Occurrences(users + [u], name) == Occurrences(users, name) + (if u.username == name then 1 else 0)
  {
    if |users| == 0 {
      assert [u][1..] == [];
    } else {
      assert (users + [u])[1..] == users[1..] + [u];
      OccurrencesAppend(users[1..], u, name);
    }
  }

  /** A name occurs in the collection exactly when the unique index holds it. */
  lemma {:induction false} OccurrencesTaken(users: seq<User>, name: string)
    ensures Occurrences(users, name) > 0 <==> UsernameTaken(users, name)
  {
    if |users| > 0 {
      OccurrencesTaken(users[1..], name);
      if UsernameTaken(users[1..], name) {
        var i :| 0 <= i < |users[1..]| && users[1..][i].username == name;
        assert users[i + 1].username == name;
      }
      if UsernameTaken(users, name) && users[0].username != name {
        var i :| 0 <= i < |users| && users[i].username == name;
        assert users[1..][i - 1].username == name;
      }
    }
  }

  /** Under the unique index no name occurs more than once. */
  lemma {:induction false} UniqueOccursAtMostOnce(users: seq<User>, name: string)
    requires UniqueUsernames(users)
    ensures Occurrences(users, name) <= 1
  {
    if |users| > 0 {
      UniqueOccursAtMostOnce(users[1..], name);
      if users[0].username == name {
        forall i | 0 <= i < |users[1..]|
          ensures users[1..][i].username != name
        {
          assert users[0].username != users[i + 1].username;
        }
        OccurrencesTaken(users[1..], name);
      }
    }
  }

  /** A successful registration stores the username exactly once and the
      new id resolves to the new user. */
  lemma CreateUserRegistersOnce(st: Store, username: Option<string>)
    requires Valid(st)
    requires CreateUser(st, username).0.UserCreated?
    ensures var (resp, st') := CreateUser(st, username);
            && Occurrences(st'.users, username.value) == 1
            && FindUser(st'.users, resp.id) == Some(User(resp.id, username.value))
  {
    var (resp, st') := CreateUser(st, username);
    OccurrencesTaken(st.users, username.value);
    OccurrencesAppend(st.users, User(resp.id, username.value), username.value);
    assert Valid(st');
    FindStoredUser(st'.users, |st.users|);
  }

  /** Registration keeps the unique index and the identifier discipline. */
  lemma CreateUserPreservesValid(st: Store, username: Option<string>)
    requires Valid(st)
    ensures Valid(CreateUser(st, username).1)
  {
  }

  /** Registering the same username twice: the second attempt fails with
      500 and writes nothing. */
  lemma CreateTwiceFails(st: Store, name: string)
    requires CreateUser(st, Some(name)).0.UserCreated?
    ensures var st' := CreateUser(st, Some(name)).1;
            CreateUser(st', Some(name)) == (Error(ServerError, DuplicateKey), st')
  {
    var st' := CreateUser(st, Some(name)).1;
    assert st'.users[|st.users|].username == name;
  }

  /** After a registration the listing shows the new username exactly once. */
  lemma CreateThenList(st: Store, name: string)
    requires Valid(st)
    requires CreateUser(st, Some(name)).0.UserCreated?
    ensures var listed := ListUsers(CreateUser(st, Some(name)).1).0.users;
            Occurrences(listed, name) == 1
  {
    var st' := CreateUser(st, Some(name)).1;
    CreateUserRegistersOnce(st, Some(name));
    assert ListUsers(st').0.users == st'.users;
  }
}
