/** The local user table and session store as the sync sees them: the
    `{user}` table of the local host keyed by `username` (unique there, since
    the table's unique index is on host and username), the next id the table will
    hand out, and the ids of users that have live sessions. The three calls
    the sync makes into them (`user_create_user`, `user_update_user` with only
    `suspended` set, `kill_user_sessions`) are the methods of
    `UserDirectory`, and the create and suspend loops of `sync_users` are
    `CreateUsers` and `SuspendUsers`. */
module Directory {
  import opened Staging

  /** The authentication method of this plugin, `$this->authtype`, which is
      also the literal `"ws"` of the suspend query. */
  const AuthType := "ws"

  /** The columns of a `{user}` row that the sync reads or writes. */
  datatype User = User(id: int, auth: string, firstname: string, email: string,
                       confirmed: bool, deleted: bool, suspended: bool)

  /** A user as the create loop makes it from a staged row: the row's first
      name and email, `confirmed = 1`, `auth = 'ws'`, and the table defaults
      `deleted = 0` and `suspended = 0`. */
  predicate CreatedFrom(user: User, row: StagedRow)
  {
    && user.auth == AuthType
    && user.firstname == row.firstname
    && user.email == row.email
    && user.confirmed
    && !user.deleted
    && !user.suspended
  }

  /** The ids of the named users. */
  function IdsOf(users: map<string, User>, names: set<string>): set<int>
  {
    set u | u in names && u in users :: users[u].id
  }

  /** Naming one more user adds that user's id. */
  lemma IdsOfAddOne(users: map<string, User>, names: set<string>, u: string)
    requires u in users
    ensures IdsOf(users, names + {u}) == IdsOf(users, names) + {users[u].id}
  {
  }

  /** Looking ids up in a table that only grew gives the same ids. */
  lemma IdsOfGrown(before: map<string, User>, after: map<string, User>, names: set<string>)
    requires names <= before.Keys
    requires forall u :: u in before ==> u in after && after[u] == before[u]
    ensures IdsOf(after, names) == IdsOf(before, names)
  {
  }

  /** Part way through the create loop: the rows named in `done` have become
      users with ids from `firstId` on; the users of `before` are unchanged. */
  ghost predicate CreatedSoFar(before: map<string, User>, firstId: int, rows: map<string, StagedRow>,
                               done: set<string>, users: map<string, User>)
  {
    && done <= rows.Keys
    && users.Keys == before.Keys + done
    && (forall u :: u in before ==> users[u] == before[u])
    && (forall u :: u in done ==> CreatedFrom(users[u], rows[u]))
    && (forall u :: u in users && u !in before ==> users[u].id >= firstId)
  }

  /** Creating one more of the `pending` rows, with a fresh id, moves the
      create loop one step on. */
  lemma CreatedOneMore(before: map<string, User>, firstId: int, rows: map<string, StagedRow>,
                       pending: set<string>, users: map<string, User>, u: string, id: int)
    requires CreatedSoFar(before, firstId, rows, rows.Keys - pending, users)
    requires rows.Keys !! before.Keys
    requires u in pending && pending <= rows.Keys && id >= firstId
    ensures u !in users
    ensures CreatedSoFar(before, firstId, rows, rows.Keys - (pending - {u}),
                         users[u := User(id, AuthType, rows[u].firstname, rows[u].email, true, false, false)])
  {
    assert rows.Keys - (pending - {u}) == (rows.Keys - pending) + {u};
  }

  /** Part way through the suspend loop: the users named in `done` are
      suspended and their ids have no sessions; nothing else has changed. */
  ghost predicate SuspendedSoFar(before: map<string, User>, sessionsBefore: set<int>, done: set<string>,
                                 users: map<string, User>, sessions: set<int>)
  {
    && users.Keys == before.Keys
    && (forall u :: u in users ==>
          users[u] == if u in done then before[u].(suspended := true) else before[u])
    && sessions == sessionsBefore - IdsOf(before, done)
  }

  /** Suspending one more of the `pending` names, and killing its sessions,
      moves the suspend loop one step on. */
  lemma SuspendedOneMore(before: map<string, User>, sessionsBefore: set<int>, names: set<string>,
                         pending: set<string>, users: map<string, User>, sessions: set<int>, u: string)
    requires SuspendedSoFar(before, sessionsBefore, names - pending, users, sessions)
    requires u in pending && u in names && u in before
    ensures u in users
    ensures SuspendedSoFar(before, sessionsBefore, names - (pending - {u}),
                           users[u := users[u].(suspended := true)], sessions - {users[u].id})
  {
    var done := names - pending;
    assert names - (pending - {u}) == done + {u};
    IdsOfAddOne(before, done, u);
  }

  /** Ids are positive, below the next id, and a primary key. */
  ghost predicate WellKeyed(users: map<string, User>, nextId: int)
  {
    && 0 < nextId
    && (forall u :: u in users ==> 0 < users[u].id < nextId)
    && (forall u, v :: u in users && v in users && u != v ==> users[u].id != users[v].id)
  }

  class UserDirectory {
    var users: map<string, User>
    var nextId: int
    var sessions: set<int>

    ghost predicate Valid()
      reads this
    {
      WellKeyed(users, nextId)
    }

    constructor (users: map<string, User>, nextId: int, sessions: set<int>)
      requires 0 < nextId
      requires forall u :: u in users ==> 0 < users[u].id < nextId
      requires forall u, v :: u in users && v in users && u != v ==> users[u].id != users[v].id
      ensures Valid()
      ensures this.users == users && this.nextId == nextId && this.sessions == sessions
    {
      this.users := users;
      this.nextId := nextId;
      this.sessions := sessions;
    }

    /** `user_create_user`: insert a row with a fresh id; the username is not
        taken (the join of the create query guarantees it). */
    method CreateUser(username: string, firstname: string, email: string, confirmed: bool, auth: string)
      returns (id: int)
      requires Valid() && username !in users
      modifies this
      ensures Valid()
      ensures id == old(nextId) && nextId == old(nextId) + 1
      ensures users == old(users)[username := User(id, auth, firstname, email, confirmed, false, false)]
      ensures sessions == old(sessions)
    {
      id := nextId;
      users := users[username := User(id, auth, firstname, email, confirmed, false, false)];
      nextId := nextId + 1;
    }

    /** `user_update_user` with only `id` and `suspended = 1` set. */
    method SuspendUser(username: string)
      requires Valid() && username in users
      modifies this
      ensures Valid()
      ensures users == old(users)[username := old(users)[username].(suspended := true)]
      ensures nextId == old(nextId) && sessions == old(sessions)
    {
      users := users[username := users[username].(suspended := true)];
    }

    /** `kill_user_sessions`: the user keeps no live session. */
    method KillUserSessions(id: int)
      modifies this
      ensures users == old(users) && nextId == old(nextId)
      ensures sessions == old(sessions) - {id}
    {
      sessions := sessions - {id};
    }

    /** The create loop: each staged row with an unknown username becomes a
        new confirmed `ws` user; existing users do not change. */
    method CreateUsers(rows: map<string, StagedRow>)
      requires Valid()
      requires rows.Keys !! users.Keys
      modifies this
      ensures Valid()
      ensures users.Keys == old(users).Keys + rows.Keys
      ensures forall u :: u in old(users) ==> users[u] == old(users)[u]
      ensures forall u :: u in rows ==> CreatedFrom(users[u], rows[u])
      ensures forall u :: u in users && u !in old(users) ==> users[u].id >= old(nextId)
      ensures sessions == old(sessions)
    {
      ghost var before, firstId := users, nextId;
      var pending := rows.Keys;
      while pending != {}
        invariant Valid()
        invariant pending <= rows.Keys
        invariant nextId >= firstId
        invariant sessions == old(sessions)
        invariant CreatedSoFar(before, firstId, rows, rows.Keys - pending, users)
        decreases pending
      {
        var username :| username in pending;
        var row := rows[username];
        CreatedOneMore(before, firstId, rows, pending, users, username, nextId);
        var _ := CreateUser(username, row.firstname, row.email, true, AuthType);
        pending := pending - {username};
      }
      assert rows.Keys - pending == rows.Keys;
    }

    /** One turn of the suspend loop: suspend the user, then kill its
        sessions. */
    method SuspendAndKill(username: string)
      requires Valid() && username in users
      modifies this
      ensures Valid()
      ensures users == old(users)[username := old(users)[username].(suspended := true)]
      ensures nextId == old(nextId)
      ensures sessions == old(sessions) - {old(users)[username].id}
    {
      var id := users[username].id;
      SuspendUser(username);
      KillUserSessions(id);
    }

    /** The suspend loop: each named user gets `suspended = 1` and loses its
        sessions; nothing else changes. */
    method SuspendUsers(names: set<string>)
      requires Valid()
      requires names <= users.Keys
      modifies this
      ensures Valid()
      ensures users.Keys == old(users).Keys && nextId == old(nextId)
      ensures forall u :: u in users ==>
                users[u] == if u in names then old(users)[u].(suspended := true) else old(users)[u]
      ensures sessions == old(sessions) - IdsOf(old(users), names)
    {
      ghost var before, sessionsBefore := users, sessions;
      var pending := names;
      while pending != {}
        invariant Valid()
        invariant pending <= names
        invariant nextId == old(nextId)
        invariant SuspendedSoFar(before, sessionsBefore, names - pending, users, sessions)
        decreases pending
      {
        var username :| username in pending;
        SuspendedOneMore(before, sessionsBefore, names, pending, users, sessions, username);
        SuspendAndKill(username);
        pending := pending - {username};
      }
    }
  }
}
