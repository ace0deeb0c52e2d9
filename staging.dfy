/** Staging: every fetched record becomes one row of the temporary table
    `tmp_extuser` (auth.php, `sync_users`), whose `username` column carries a
    unique index. Inserting a second row with the same username is a database
    error that nothing catches, so it ends the run. */
module Staging {
  import opened Webservice

  /** A row of `tmp_extuser` apart from its key: the table is modelled as a
      map from the unique `username` to the rest of the row. */
  datatype StagedRow = StagedRow(firstname: string, email: string)

  /** Either the whole table, or the username whose second insert failed. */
  datatype StageOutcome = Staged(rows: map<string, StagedRow>) | DuplicateUsername(username: string)

  /** The row stored for a record: `LoginPortal` is the username, `Nome` the
      first name and `Email` the email. */
  function RowOf(s: RemoteStudent): StagedRow
  {
    StagedRow(s.nome, s.email)
  }

  /** Inserting the records in order; the first repeated username stops it. */
  function Stage(students: seq<RemoteStudent>): StageOutcome
  {
    if students == [] then Staged(map[])
    else
      var last := students[|students| - 1];
      match Stage(students[..|students| - 1])
      case DuplicateUsername(u) => DuplicateUsername(u)
      case Staged(rows) =>
        if last.loginPortal in rows then DuplicateUsername(last.loginPortal)
        else Staged(rows[last.loginPortal := RowOf(last)])
  }

  predicate DistinctLogins(students: seq<RemoteStudent>)
  {
    forall i, j :: 0 <= i < j < |students| ==> students[i].loginPortal != students[j].loginPortal
  }

  function Logins(students: seq<RemoteStudent>): set<string>
  {
    set i | 0 <= i < |students| :: students[i].loginPortal
  }

  /** The staging loop: insert one row per record, failing on the first
      username already in the table. */
  method StageRecords(students: seq<RemoteStudent>) returns (outcome: StageOutcome)
    ensures outcome == Stage(students)
  {
    var rows: map<string, StagedRow> := map[];
    for i := 0 to |students|
      invariant Stage(students[..i]) == Staged(rows)
    {
      var student := students[i];
      assert students[..i + 1][..i] == students[..i];
      if student.loginPortal in rows {
        StageDuplicateSticks(students, i + 1);
        return DuplicateUsername(student.loginPortal);
      }
      rows := rows[student.loginPortal := StagedRow(student.nome, student.email)];
    }
    assert students[..|students|] == students;
    return Staged(rows);
  }

  /** Once a prefix has failed on a duplicate, the whole input fails on that
      same username: later records are never inserted. */
  lemma {:induction false} StageDuplicateSticks(students: seq<RemoteStudent>, k: nat)
    requires k <= |students|
    requires Stage(students[..k]).DuplicateUsername?
    ensures Stage(students) == Stage(students[..k])
    decreases |students| - k
  {
    if k < |students| {
      assert students[..k + 1][..k] == students[..k];
      StageDuplicateSticks(students, k + 1);
    } else {
      assert students[..k] == students;
    }
  }

  /** Staging succeeds exactly when no two records share a `LoginPortal`. */
  lemma {:induction false} StageSucceedsIffDistinct(students: seq<RemoteStudent>)
    ensures Stage(students).Staged? <==> DistinctLogins(students)
  {
    if students != [] {
      var n := |students| - 1;
      var prefix := students[..n];
      var last := students[n];
      StageSucceedsIffDistinct(prefix);
      StageFailsAtLast(students);
      assert forall i :: 0 <= i < n ==> prefix[i] == students[i];
      if Stage(prefix).DuplicateUsername? {
        var i, j :| 0 <= i < j < n && prefix[i].loginPortal == prefix[j].loginPortal;
        assert students[i].loginPortal == students[j].loginPortal;
      } else {
        StagedKeys(prefix);
        if last.loginPortal in Stage(prefix).rows {
          var i :| 0 <= i < n && prefix[i].loginPortal == last.loginPortal;
          assert students[i].loginPortal == students[n].loginPortal;
        } else {
          forall i, j | 0 <= i < j < |students|
            ensures students[i].loginPortal != students[j].loginPortal
          {
            if j == n {
              assert prefix[i].loginPortal in Logins(prefix);
            }
          }
          assert Stage(students).Staged?;
        }
      }
    }
  }

  /** Staging fails when all but the last record already failed, or when the
      last record's username is already in the table. */
  lemma StageFailsAtLast(students: seq<RemoteStudent>)
    requires students != []
    ensures var n := |students| - 1;
            var prior := Stage(students[..n]);
            (prior.DuplicateUsername? || students[n].loginPortal in prior.rows) ==> Stage(students).DuplicateUsername?
  {
  }

  /** A successful staging is the staging of all but the last record, with
      the last record's row added under a username not yet in the table. */
  lemma StagedLast(students: seq<RemoteStudent>)
    requires students != [] && Stage(students).Staged?
    ensures var n := |students| - 1;
            && Stage(students[..n]).Staged?
            && students[n].loginPortal !in Stage(students[..n]).rows
            && Stage(students).rows == Stage(students[..n]).rows[students[n].loginPortal := RowOf(students[n])]
  {
  }

  /** A successful staging holds one row per record, under that record's
      `LoginPortal`, built from that record. */
  lemma StagedRows(students: seq<RemoteStudent>)
    requires Stage(students).Staged?
    ensures Stage(students).rows.Keys == Logins(students)
    ensures |Stage(students).rows| == |students|
    ensures forall i :: 0 <= i < |students| ==> Stage(students).rows[students[i].loginPortal] == RowOf(students[i])
  {
    StagedKeys(students);
    forall i | 0 <= i < |students|
      ensures Stage(students).rows[students[i].loginPortal] == RowOf(students[i])
    {
      StagedRowOf(students, i);
    }
  }

  /** The usernames of a successful staging are the records' `LoginPortal`s,
      one row each. */
  lemma {:induction false} StagedKeys(students: seq<RemoteStudent>)
    requires Stage(students).Staged?
    ensures Stage(students).rows.Keys == Logins(students)
    ensures |Stage(students).rows| == |students|
  {
    if students != [] {
      var n := |students| - 1;
      var prefix := students[..n];
      StagedLast(students);
      StagedKeys(prefix);
      LoginsLast(students);
    }
  }

  /** The logins of a non-empty list are those of all but its last record,
      plus the last record's. */
  lemma LoginsLast(students: seq<RemoteStudent>)
    requires students != []
    ensures var n := |students| - 1;
            Logins(students) == Logins(students[..n]) + {students[n].loginPortal}
  {
    var n := |students| - 1;
    var prefix := students[..n];
    forall x | x in Logins(students)
      ensures x in Logins(prefix) + {students[n].loginPortal}
    {
      var i :| 0 <= i < |students| && students[i].loginPortal == x;
      if i < n {
        assert prefix[i] == students[i];
      }
    }
    forall x | x in Logins(prefix)
      ensures x in Logins(students)
    {
      var i :| 0 <= i < n && prefix[i].loginPortal == x;
      assert students[i] == prefix[i];
    }
    assert students[n].loginPortal in Logins(students);
  }

  /** The row under the `i`-th record's `LoginPortal` is built from that
      record. */
  lemma {:induction false} StagedRowOf(students: seq<RemoteStudent>, i: nat)
    requires Stage(students).Staged? && i < |students|
    ensures students[i].loginPortal in Stage(students).rows
    ensures Stage(students).rows[students[i].loginPortal] == RowOf(students[i])
  {
    var n := |students| - 1;
    var prefix := students[..n];
    StagedLast(students);
    if i < n {
      assert prefix[i] == students[i];
      StagedRowOf(prefix, i);
    }
  }

  /** A failed staging names a username that two records share. */
  lemma {:induction false} DuplicateIsShared(students: seq<RemoteStudent>)
    requires Stage(students).DuplicateUsername?
    ensures exists i, j :: 0 <= i < j < |students|
              && students[i].loginPortal == Stage(students).username
              && students[j].loginPortal == Stage(students).username
  {
    var n := |students| - 1;
    var prefix := students[..n];
    assert forall i :: 0 <= i < n ==> prefix[i] == students[i];
    if Stage(prefix).DuplicateUsername? {
      DuplicateIsShared(prefix);
      var i, j :| 0 <= i < j < n && prefix[i].loginPortal == Stage(prefix).username
                  && prefix[j].loginPortal == Stage(prefix).username;
      assert students[i] == prefix[i] && students[j] == prefix[j];
    } else {
      StagedRows(prefix);
      var i :| 0 <= i < n && prefix[i].loginPortal == students[n].loginPortal;
      assert students[i] == prefix[i];
    }
  }
}
