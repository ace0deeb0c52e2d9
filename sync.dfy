/** `auth_plugin_ws::sync_users` (auth.php): fetch the students, stage them in
    the username-unique temporary table, stop if nothing was staged, create
    the staged usernames the user table does not know, and suspend the active
    `ws` users the staging table does not know. An UPDATE statement for the
    matched users is assembled but never executed, so matched users are left
    as they are. Planning is pure; applying it is `WsAuthPlugin.SyncUsers`. */
module Sync {
  import opened DefaultParams
  import opened Webservice
  import opened Staging
  import opened Directory

  /** The create query: staged rows whose username matches no user at all
      (whatever its auth, deleted or suspended state). */
  function ToCreate(staged: map<string, StagedRow>, users: map<string, User>): (create: map<string, StagedRow>)
    ensures create.Keys == staged.Keys - users.Keys
    ensures forall u :: u in create ==> create[u] == staged[u]
  {
    map u | u in staged && u !in users :: staged[u]
  }

  /** The filter of the suspend query besides the join: an active `ws`
      account. */
  predicate ActiveWsUser(user: User)
  {
    user.auth == AuthType && !user.deleted && !user.suspended
  }

  /** The suspend query: active `ws` users whose username is not staged. */
  function ToSuspend(staged: map<string, StagedRow>, users: map<string, User>): (suspend: set<string>)
    ensures suspend <= users.Keys - staged.Keys
    ensures forall u :: u in suspend ==> ActiveWsUser(users[u])
    ensures forall u :: u in users && u !in staged && ActiveWsUser(users[u]) ==> u in suspend
  {
    set u | u in users && ActiveWsUser(users[u]) && u !in staged
  }

  /** What one run decides before touching the user table. */
  datatype SyncPlan =
    | FetchFailed(message: string)
    | StagingFailed(username: string)
    | Abort
    | Proceed(staged: map<string, StagedRow>, create: map<string, StagedRow>, suspend: set<string>)

  /** How `sync_users` ends: an exception escaping `call_ws`, an uncaught
      insert error, `exit` on an empty staging table, or `return true`. */
  datatype SyncOutcome = FetchThrew(message: string) | InsertFailed(username: string) | Exited | Returned(value: bool)

  /** The decision of one run on what `call_ws` gave back: an escaped
      exception ends it, then the staging insert may fail, then an empty
      staging table exits, and otherwise the create and suspend queries run on
      the staged rows. */
  function PlanSync(fetched: WsResult, users: map<string, User>): (plan: SyncPlan)
    ensures plan.FetchFailed? <==> fetched.Uncaught?
    ensures plan.Proceed? ==> && |plan.staged| >= 1
                              && plan.create == ToCreate(plan.staged, users)
                              && plan.suspend == ToSuspend(plan.staged, users)
  {
    if fetched.Uncaught? then FetchFailed(fetched.message)
    else
      match Stage(StudentsOf(fetched))
      case DuplicateUsername(u) => StagingFailed(u)
      case Staged(rows) =>
        if |rows| < 1 then Abort
        else Proceed(rows, ToCreate(rows, users), ToSuspend(rows, users))
  }

  function OutcomeOf(plan: SyncPlan): SyncOutcome
  {
    match plan
    case FetchFailed(m) => FetchThrew(m)
    case StagingFailed(u) => InsertFailed(u)
    case Abort => Exited
    case Proceed(_, _, _) => Returned(true)
  }

  /** The user table and session store after a run that went ahead with
      `staged`: the created users were added, the suspended ones had only
      `suspended` set and lost their sessions, and nothing else changed. */
  ghost predicate Applied(before: map<string, User>, sessionsBefore: set<int>, staged: map<string, StagedRow>,
                          after: map<string, User>, sessionsAfter: set<int>)
  {
    && after.Keys == before.Keys + ToCreate(staged, before).Keys
    && (forall u :: u in before ==>
          after[u] == if u in ToSuspend(staged, before) then before[u].(suspended := true) else before[u])
    && (forall u :: u in ToCreate(staged, before) ==> CreatedFrom(after[u], staged[u]))
    && sessionsAfter == sessionsBefore - IdsOf(before, ToSuspend(staged, before))
  }

  // ---------------------------------------------------------------------------
  // The safety guard
  // ---------------------------------------------------------------------------

  /** The run reaches `exit` exactly when `call_ws` returned and gave no
      record. */
  lemma AbortIffNoStudents(fetched: WsResult, users: map<string, User>)
    ensures PlanSync(fetched, users).Abort? <==> !fetched.Uncaught? && StudentsOf(fetched) == []
  {
    if !fetched.Uncaught? && Stage(StudentsOf(fetched)).Staged? {
      StagedRows(StudentsOf(fetched));
    }
  }

  /** A fault of the `GetAlunos` call inside the `try` makes `call_ws` return
      `false`, which stages nothing, so the run reaches `exit`. */
  lemma FailedFetchAborts(defaults: map<string, string>, soap: Request -> SoapReply, users: map<string, User>)
    requires StringKeysOnly(defaults)
    requires soap(Request(GetAlunos, MergeParams(defaults, SearchParams()))).Fault?
    ensures PlanSync(Fetch(defaults, soap), users) == Abort
  {
    FaultYieldsNoStudents(defaults, soap);
  }

  /** A fault while constructing the SOAP client escapes `call_ws`, so the
      run ends with that exception and never reaches the `exit` guard. */
  lemma ClientFaultEndsRun(defaults: map<string, string>, soap: Request -> SoapReply, users: map<string, User>)
    requires StringKeysOnly(defaults)
    requires soap(Request(GetAlunos, MergeParams(defaults, SearchParams()))).ClientFault?
    ensures PlanSync(Fetch(defaults, soap), users)
            == FetchFailed(soap(Request(GetAlunos, MergeParams(defaults, SearchParams()))).message)
  {
  }

  /** The staging insert fails exactly when `call_ws` returned two records
      sharing a username, and then the user table is not even read. */
  lemma StagingFailsIffDuplicate(fetched: WsResult, users: map<string, User>)
    ensures PlanSync(fetched, users).StagingFailed? <==> !fetched.Uncaught? && !DistinctLogins(StudentsOf(fetched))
  {
    if !fetched.Uncaught? {
      StageSucceedsIffDistinct(StudentsOf(fetched));
    }
  }

  /** A run that goes ahead has staged one row per fetched record, keyed by
      its `LoginPortal`. */
  lemma ProceedStagesEveryStudent(fetched: WsResult, users: map<string, User>)
    requires PlanSync(fetched, users).Proceed?
    ensures var students := StudentsOf(fetched);
            var staged := PlanSync(fetched, users).staged;
            && |staged| == |students| >= 1
            && staged.Keys == Logins(students)
            && forall i :: 0 <= i < |students| ==> staged[students[i].loginPortal] == RowOf(students[i])
  {
    StagedRows(StudentsOf(fetched));
  }

  // ---------------------------------------------------------------------------
  // The plan
  // ---------------------------------------------------------------------------

  /** Created usernames are staged and unknown; suspended usernames are known
      and not staged; so no user is both created and suspended. */
  lemma CreateAndSuspendDisjoint(staged: map<string, StagedRow>, users: map<string, User>)
    ensures ToCreate(staged, users).Keys <= staged.Keys
    ensures ToCreate(staged, users).Keys !! users.Keys
    ensures ToSuspend(staged, users) <= users.Keys
    ensures ToSuspend(staged, users) !! staged.Keys
    ensures ToCreate(staged, users).Keys !! ToSuspend(staged, users)
  {
  }

  /** The suspend query runs after the creations; since every created
      username is staged, it selects exactly what it would have selected
      before them. */
  lemma SuspendIgnoresCreated(staged: map<string, StagedRow>, before: map<string, User>,
                                                 after: map<string, User>)
    requires after.Keys == before.Keys + ToCreate(staged, before).Keys
    requires forall u :: u in before ==> after[u] == before[u]
    ensures ToSuspend(staged, after) == ToSuspend(staged, before)
  {
  }

  // ---------------------------------------------------------------------------
  // The state after a run
  // ---------------------------------------------------------------------------

  /** A user whose username is staged, or who is not an active `ws` account,
      keeps every stored field: the UPDATE for matched users is never run,
      and deleted, suspended and other-auth accounts are never selected. */
  lemma UntouchedUsers(before: map<string, User>, sessionsBefore: set<int>, staged: map<string, StagedRow>,
                       after: map<string, User>, sessionsAfter: set<int>, u: string)
    requires Applied(before, sessionsBefore, staged, after, sessionsAfter)
    requires u in before
    requires u in staged || !ActiveWsUser(before[u])
    ensures u in after && after[u] == before[u]
  {
  }

  /** A user changes in a run exactly when it was an active `ws` account
      whose username was not staged, and then it becomes suspended. */
  lemma SuspendedExactly(before: map<string, User>, sessionsBefore: set<int>, staged: map<string, StagedRow>,
                         after: map<string, User>, sessionsAfter: set<int>, u: string)
    requires Applied(before, sessionsBefore, staged, after, sessionsAfter)
    requires u in before
    ensures after[u] != before[u] <==> ActiveWsUser(before[u]) && u !in staged
    ensures after[u] != before[u] ==> after[u] == before[u].(suspended := true) && after[u].suspended
  {
  }

  /** With ids a primary key, a user loses its sessions in a run exactly when
      it is suspended in that run; every other user keeps its sessions. */
  lemma SessionsKilledExactly(before: map<string, User>, sessionsBefore: set<int>,
                                                 staged: map<string, StagedRow>,
                                                 after: map<string, User>, sessionsAfter: set<int>, u: string)
    requires Applied(before, sessionsBefore, staged, after, sessionsAfter)
    requires forall v, w :: v in before && w in before && v != w ==> before[v].id != before[w].id
    requires u in before
    ensures before[u].id in sessionsAfter <==> before[u].id in sessionsBefore && u !in ToSuspend(staged, before)
  {
  }

  /** Every staged username has an account afterwards, and the users created
      in the run are confirmed, active `ws` accounts. */
  lemma StagedUsersExist(before: map<string, User>, sessionsBefore: set<int>, staged: map<string, StagedRow>,
                         after: map<string, User>, sessionsAfter: set<int>)
    requires Applied(before, sessionsBefore, staged, after, sessionsAfter)
    ensures staged.Keys <= after.Keys
    ensures forall u :: u in after && u !in before ==> ActiveWsUser(after[u]) && after[u].confirmed
  {
  }

  /** Running the sync again on the same records changes nothing: no
      username is left to create and no active `ws` account is left to
      suspend. */
  lemma SecondRunIsNoOp(before: map<string, User>, sessionsBefore: set<int>,
                                           staged: map<string, StagedRow>,
                                           after: map<string, User>, sessionsAfter: set<int>)
    requires Applied(before, sessionsBefore, staged, after, sessionsAfter)
    ensures ToCreate(staged, after) == map[]
    ensures ToSuspend(staged, after) == {}
  {
  }

  // ---------------------------------------------------------------------------
  // The plugin
  // ---------------------------------------------------------------------------

  /** Applying a plan that went ahead: the create loop, then the suspend
      query on the table as the creations left it, then the suspend loop. */
  method ApplyPlan(dir: UserDirectory, staged: map<string, StagedRow>)
    requires dir.Valid()
    modifies dir
    ensures dir.Valid()
    ensures Applied(old(dir.users), old(dir.sessions), staged, dir.users, dir.sessions)
  {
    ghost var before := dir.users;
    var addUsers := ToCreate(staged, dir.users);
    dir.CreateUsers(addUsers);
    ghost var created := dir.users;
    var removeUsers := ToSuspend(staged, dir.users);
    SuspendIgnoresCreated(staged, before, created);
    dir.SuspendUsers(removeUsers);
    IdsOfGrown(before, created, removeUsers);
  }

  /** The rest of a run once `call_ws` has answered with `fetched`: an
      escaped exception ends it, then the staging loop, the `exit` guard and
      the create and suspend loops. */
  method SyncFetched(dir: UserDirectory, fetched: WsResult) returns (outcome: SyncOutcome)
    requires dir.Valid()
    modifies dir
    ensures dir.Valid()
    ensures outcome == OutcomeOf(PlanSync(fetched, old(dir.users)))
    ensures var plan := PlanSync(fetched, old(dir.users));
            if plan.Proceed? then
              Applied(old(dir.users), old(dir.sessions), plan.staged, dir.users, dir.sessions)
            else
              dir.users == old(dir.users) && dir.sessions == old(dir.sessions) && dir.nextId == old(dir.nextId)
  {
    ghost var plan := PlanSync(fetched, dir.users);
    if fetched.Uncaught? {
      assert plan == FetchFailed(fetched.message);
      return FetchThrew(fetched.message);
    }
    var staging := StageRecords(StudentsOf(fetched));
    if staging.DuplicateUsername? {
      assert plan == StagingFailed(staging.username);
      return InsertFailed(staging.username);
    }
    var staged := staging.rows;
    var count := |staged|;
    if count < 1 {
      assert plan == Abort;
      return Exited;
    }
    assert plan.Proceed? && plan.staged == staged;
    ApplyPlan(dir, staged);
    return Returned(true);
  }

  class WsAuthPlugin {
    /** `ws_default_params`: the parsed `default_params` setting. */
    var defaultParams: map<string, string>

    /** The constructor: parse the `default_params` setting. */
    constructor (defaultParamsSetting: Option<string>)
      requires WellFormedSetting(defaultParamsSetting)
      ensures defaultParams == DefaultParamsOf(defaultParamsSetting)
    {
      var parsed := ParseDefaultParams(defaultParamsSetting);
      defaultParams := parsed;
    }

    /** One sync run against the user table and session store `dir`, with
        `soap` standing for the SOAP service. */
    method SyncUsers(dir: UserDirectory, soap: Request -> SoapReply) returns (outcome: SyncOutcome)
      requires dir.Valid()
      requires StringKeysOnly(defaultParams)
      modifies dir
      ensures dir.Valid()
      ensures outcome == OutcomeOf(PlanSync(Fetch(defaultParams, soap), old(dir.users)))
      ensures var plan := PlanSync(Fetch(defaultParams, soap), old(dir.users));
              if plan.Proceed? then
                Applied(old(dir.users), old(dir.sessions), plan.staged, dir.users, dir.sessions)
              else
                dir.users == old(dir.users) && dir.sessions == old(dir.sessions) && dir.nextId == old(dir.nextId)
    {
      var result := CallWs(defaultParams, GetAlunos, SearchParams(), soap);
      assert result == Fetch(defaultParams, soap);
      outcome := SyncFetched(dir, result);
    }
  }
}
