# auth_ws user synchronisation, modelled in Dafny

This project models the Moodle authentication plugin `auth_ws`. The plugin
authenticates users against a remote SOAP student registry. Its one piece of
real logic is `auth_plugin_ws::sync_users`, which keeps the local user table
in step with the registry. A run works like this:

1. It calls the remote operation `GetAlunos` with the search filter
   `sParametrosBusca = Inadimplente=0`. The configured default parameters are
   merged in first, and the call's own parameters win on a shared name. A
   fault of the call itself is caught, and the call then returns `false`. The
   SOAP client is built before the `try`, so a fault while loading the WSDL
   is not caught: it escapes `call_ws` and ends the run before any staging.
2. It copies every fetched record into the temporary table `tmp_extuser`:
   `LoginPortal` becomes the username, `Nome` the first name and `Email` the
   email. `username` has a unique index there. A second record with the same
   username makes the insert fail, and nothing catches that error.
3. If the table is empty, the run `exit`s before touching any user. This
   covers a failed fetch, because `false` yields no records.
4. Every staged username with no row in the user table becomes a new user,
   with `confirmed = 1` and `auth = 'ws'`.
5. An UPDATE for the matched users is assembled but never executed, so
   matched users keep every stored field.
6. The suspend query runs on the table as the creations left it. Every user
   it selects gets `suspended = 1` and has its sessions killed. It selects
   users with `auth = 'ws'`, `deleted = 0` and `suspended = 0` whose username
   is not staged.
7. The function returns `true`.

The plugin constructor parses the `default_params` setting into the defaults
dictionary. The setting is a comma-separated list of `name:value` items.

Modules, one per component:

- `DefaultParams` (`params.dfy`) covers the setting parser and the merge.
  This includes PHP's `explode`, and `empty()`, which treats `"0"` as empty.
- `Webservice` (`webservice.dfy`) covers `call_ws`. The SOAP library is a
  parameter `soap: Request -> SoapReply`.
- `Staging` (`staging.dfy`) covers the temporary table. It is a map keyed by
  the unique username.
- `Directory` (`directory.dfy`) is the user table and session store, as the
  class `UserDirectory`. Its methods are the three calls the sync makes, plus
  the create loop and the suspend loop.
- `Sync` (`sync.dfy`) holds the pure plan (`PlanSync`, `ToCreate`,
  `ToSuspend`) and the predicate `Applied`, which describes the state after a
  run. It also holds the properties of a run and the plugin class
  `WsAuthPlugin`, with its constructor and `SyncUsers`.

Some facts about the code that the model keeps:

- Users are matched on `username`.
- A repeated username ends the run with a database error.
- There is no email deduplication, no name splitting and no protected set
  of ids.
- The UPDATE is never executed.
- Success is `return true`, not the status code 0 that the doc comment of
  `sync_users` mentions.

## Model

| member | source | states |
|---|---|---|
| `DefaultParams.Split` | auth.php:44-47 | `explode`: at least one piece, no piece holds the separator, the pieces joined with the separator give back the input, and there is more than one piece iff the separator occurs |
| `DefaultParams.SplitJoin` | auth.php:44-47 | splitting a join of separator-free pieces gives back those pieces (the converse round trip) |
| `DefaultParams.ParseDefaultParams` | auth.php:43-53 | the constructor loop builds exactly `DefaultParamsOf(setting)`: the empty map for an unset, `""` or `"0"` setting, else the items assigned in order |
| `DefaultParams.AssignKeys` | auth.php:46-49 | the dictionary the loop builds has one key per distinct item name and no other key |
| `DefaultParams.AssignLastWins` | auth.php:46-49 | under each name the dictionary holds the value of the last item with that name, so a later item overwrites an earlier one |
| `DefaultParams.ParseSingleItem` | auth.php:43-50 | the setting `name:value` parses to the one-entry map `name -> value` |
| `DefaultParams.MergeParams` | auth.php:178 | merged keys are the default keys plus the call keys; a call value wins on a shared key; any other default keeps its value |
| `Webservice.CallWs` | auth.php:174-190 | the request sent carries the merged parameters; the result is `false` iff the call inside the `try` faults, an escaped exception carrying the fault's message iff building the client faults, and otherwise the reply's records |
| `Webservice.StudentsOf` | auth.php:105 | the records the staging loop iterates: none for `false`, the reply's `wsAluno` list for a response |
| `Webservice.SearchParams` | auth.php:88 | the `GetAlunos` search parameters contain no key that PHP would turn into an integer |
| `Webservice.SyncRequestParams` | auth.php:87-102 | the sync's request always carries `sParametrosBusca = Inadimplente=0` and every other default unchanged |
| `Webservice.FaultYieldsNoStudents` | auth.php:102-109 | a faulted `GetAlunos` call leaves the staging loop nothing to insert |
| `Webservice.ClientFaultEscapes` | auth.php:180-181 | a fault while building the SOAP client is not turned into `false`: it reaches `sync_users` as an exception |
| `Staging.StageRecords` | auth.php:104-109 | the staging loop inserts one row per record in order and stops at the first repeated username, as `Stage` defines |
| `Staging.StageDuplicateSticks` | auth.php:105-109 | once an insert has failed, the rest of the records do not change the outcome |
| `Staging.StageSucceedsIffDistinct` | auth.php:96-109 | staging succeeds iff no two records share a `LoginPortal` |
| `Staging.StagedRows` | auth.php:105-108 | a successful staging has one row per record, keyed by `LoginPortal`, holding that record's `Nome` and `Email`, and as many rows as records |
| `Staging.StagedKeys` | auth.php:96-108 | the usernames of a successful staging are exactly the records' `LoginPortal`s, and there are as many rows as records |
| `Staging.StagedRowOf` | auth.php:106-108 | the row under a record's `LoginPortal` holds that record's `Nome` and `Email` |
| `Staging.DuplicateIsShared` | auth.php:96-108 | a failed staging names a username that two records share |
| `Directory.UserDirectory.CreateUser` | auth.php:132 | `user_create_user` adds exactly one user with a fresh id under an unused username, not deleted and not suspended |
| `Directory.UserDirectory.SuspendUser` | auth.php:159-162 | `user_update_user` sets only `suspended` on the named user |
| `Directory.UserDirectory.KillUserSessions` | auth.php:165 | the user's id has no live session afterwards; the users are unchanged |
| `Directory.UserDirectory.CreateUsers` | auth.php:128-135 | every row becomes a user with its first name and email, `confirmed`, auth `ws`, active; existing users unchanged; ids stay a primary key |
| `Directory.UserDirectory.SuspendAndKill` | auth.php:159-165 | one turn of the suspend loop: only `suspended` is set on the user, and that user's id loses its sessions |
| `Directory.UserDirectory.SuspendUsers` | auth.php:157-166 | exactly the named users get `suspended = 1`, no other field or user changes, and exactly their ids lose their sessions |
| `Sync.ToCreate` | auth.php:122-127 | the create query selects exactly the staged usernames with no user row, whatever that row's state, each with its staged first name and email |
| `Sync.ToSuspend` | auth.php:149-157 | the suspend query selects exactly the existing active `ws` users whose username is not staged |
| `Sync.PlanSync` | auth.php:102-127 | the run ends with an escaped exception iff `call_ws` threw; a run that goes ahead has staged at least one row and creates and suspends what the two queries select on those rows |
| `Sync.AbortIffNoStudents` | auth.php:105-117 | the run reaches `exit` iff `call_ws` returned and no record was fetched |
| `Sync.FailedFetchAborts` | auth.php:102-117 | a fault of the `GetAlunos` call inside the `try` always ends in `exit` |
| `Sync.ClientFaultEndsRun` | auth.php:180-181 | a fault while building the SOAP client ends the run with that exception, before staging and before the `exit` guard |
| `Sync.StagingFailsIffDuplicate` | auth.php:96-109 | the run ends with the insert error iff two records share a username |
| `Sync.ProceedStagesEveryStudent` | auth.php:105-119 | a run that goes ahead has staged at least one row, one per record, keyed by `LoginPortal` |
| `Sync.CreateAndSuspendDisjoint` | auth.php:122-156 | created usernames are staged and unknown; suspended ones are known and not staged; no username is in both |
| `Sync.SuspendIgnoresCreated` | auth.php:149-157 | the suspend query run after the creations selects the same users as on the table before them |
| `Sync.UntouchedUsers` | auth.php:137-156 | a user whose username is staged, or who is not an active `ws` account, keeps every field (the UPDATE is never run) |
| `Sync.SuspendedExactly` | auth.php:149-166 | an existing user changes iff it is an active `ws` account whose username is not staged, and then only `suspended` becomes true |
| `Sync.SessionsKilledExactly` | auth.php:158-165 | with ids a primary key, an existing user loses its sessions iff it is suspended in the run |
| `Sync.StagedUsersExist` | auth.php:122-135 | after a run every staged username has an account, and each new account is a confirmed, active `ws` account |
| `Sync.SecondRunIsNoOp` | auth.php:122-156 | on the state a run leaves, the same staged rows select nothing to create and nothing to suspend |
| `Sync.ApplyPlan` | auth.php:122-166 | create loop, then suspend query and loop: the directory ends in the `Applied` state for the staged rows |
| `Sync.SyncFetched` | auth.php:104-167 | once `call_ws` has answered, the outcome is what `PlanSync` decides; unless the run goes ahead, users, sessions and the id counter are unchanged, otherwise the directory is in the `Applied` state |
| `Sync.WsAuthPlugin.constructor` | auth.php:39-54 | the plugin's defaults are the parsed `default_params` setting |
| `Sync.WsAuthPlugin.SyncUsers` | auth.php:84-168 | the outcome is the escaped exception, the insert error, `exit` or `return true` as `PlanSync` decides on what `call_ws` gave back; unless the run goes ahead, users, sessions and the id counter are unchanged; otherwise the directory is in the `Applied` state |

## Left out

- The SOAP transport is not modelled: `SoapClient`, `__soapCall` and the
  `?wsdl` suffix. The service is a function parameter returning records, a
  fault of the call, or a fault of building the client. How the library decodes a reply (for example a single `wsAluno`
  element arriving as an object, not a list) is not modelled.
- `user_login` is not modelled. It is a thin wrapper over the SOAP call that
  relies on PHP's loose `== true` on a nested response.
- Database plumbing is not modelled: the `xmldb` table definition and
  creation, the SQL text and `count_records_sql`. The staging table is a map,
  and its row count is the map's size.
- The internals of `user_create_user`, `user_update_user` and
  `kill_user_sessions` are not modelled. That includes their own validation,
  such as rejecting an upper-case username, which could throw during the
  create loop. It also includes `timecreated`/`timemodified` and columns the
  sync never writes.
- `Directory.UserDirectory.CreateUser`: the new user's remaining columns
  (last name and so on) take the table defaults. The model records only the
  columns the sync reads or writes.
- Records with a missing field are not modelled. A missing field would be a
  NULL insert into a NOT NULL column. Records are modelled as three strings.
- The order in which rows come back from `get_records_sql` is not modelled.
  The create and suspend loops pick users in any order, so the ids that new
  users receive are only known to be fresh.
- Trace output is not modelled (`print_string`, `echo`).
- `DefaultParams.ParseDefaultParams` requires every item to contain a `:`.
  An item without one leaves `$value` undefined in PHP.
- `DefaultParams.MergeParams` requires that no key is a PHP integer-like
  string. `array_merge` renumbers integer keys instead of overriding them.
- The constant-returning plugin methods are not modelled:
  `prevent_local_passwords`, `is_internal`, `is_synchronised_with_external`,
  `can_change_password`, `can_reset_password` and `get_userinfo`. Neither is
  `change_password_url`, which only wraps the setting in a `moodle_url`.
- `cli/map.php` is not modelled. It is a command-line entry point calling
  `map_users()`, which `auth.php` does not define.
- The `$doupdates` argument of `sync_users` is not modelled, because the code
  never reads it.
- The SQL is read with MySQL semantics. `"ws"` in the suspend query is a
  string literal there; PostgreSQL, SQL Server and Oracle would read it as a
  column name. Usernames are compared by exact string equality, while a
  MySQL collation may ignore case and accents. The user table is keyed by
  `username` alone. Moodle's unique index is on `(mnethostid, username)`, so
  the model covers the users of the local host only.
- Concurrency is not modelled. Runs are assumed to be serialised by the
  caller.
