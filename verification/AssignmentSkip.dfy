/** When `updateProject` may skip the synchronisation because the lists look the same. */
module AssignmentSkip {
  import opened Common
  import opened Assignments
  import opened AssignmentProofs

  /** Distinct values that all occur in an equally long list are a permutation of that list. */
  lemma {:induction false} Pigeonhole<T(!new)>(xs: seq<T>, ys: seq<T>)
    requires Distinct(xs) && |xs| == |ys| && forall x | x in xs :: x in ys
    ensures multiset(xs) == multiset(ys)
  {
    if xs != [] {
      var last := |xs| - 1;
      var front, x := xs[..last], xs[last];
      assert x in xs;
      var j :| 0 <= j < |ys| && ys[j] == x;
      var rest := ys[..j] + ys[j + 1..];
      forall y | y in front ensures y in rest {
        var i :| 0 <= i < last && front[i] == y;
        assert xs[i] == y && y in xs;
        var k :| 0 <= k < |ys| && ys[k] == y;
        assert rest[if k < j then k else k - 1] == y;
      }
      Pigeonhole(front, rest);
      assert xs == front + [x];
      assert ys == ys[..j] + [x] + ys[j + 1..];
    }
  }

  ghost predicate UniqueStaff(ms: seq<Mention>) {
    forall i, j | 0 <= i < j < |ms| :: ms[i].staffId != ms[j].staffId
  }

  /** Every row belongs to a staff member that exists, as the foreign key demands. */
  ghost predicate KnownStaff(rows: seq<Assignment>, staffTable: set<StaffId>) {
    forall r | r in rows :: r.staff > 0 && r.staff in staffTable
  }

  // ----- The compared list ------------------------------------------------------------------------------

  function FirstIndex(ms: seq<Mention>, staff: int): (i: int)
    ensures -1 <= i < |ms|
    ensures i >= 0 ==> ms[i].staffId == staff && forall j | 0 <= j < i :: ms[j].staffId != staff
    ensures i < 0 ==> forall m | m in ms :: m.staffId != staff
  {
    if ms == [] then -1
    else
      var front := FirstIndex(ms[..|ms| - 1], staff);
      if front >= 0 then front else if ms[|ms| - 1].staffId == staff then |ms| - 1 else -1
  }

  function LastIndex(ms: seq<Mention>, staff: int): (i: int)
    ensures -1 <= i < |ms|
    ensures i >= 0 ==> ms[i].staffId == staff && forall j | i < j < |ms| :: ms[j].staffId != staff
    ensures i < 0 ==> forall m | m in ms :: m.staffId != staff
  {
    if ms == [] then -1
    else if ms[|ms| - 1].staffId == staff then |ms| - 1
    else LastIndex(ms[..|ms| - 1], staff)
  }

  lemma {:induction false} LastRoleAt(ms: seq<Mention>, staff: int)
    ensures LastRole(ms, staff) == if LastIndex(ms, staff) < 0 then None else Some(ms[LastIndex(ms, staff)].role)
  {
    if ms != [] && ms[|ms| - 1].staffId != staff {
      LastRoleAt(ms[..|ms| - 1], staff);
    }
  }

  /** The first row of a staff member is the first entry of the compared list. */
  lemma {:induction false} CurrentFirst(rows: seq<Assignment>, project: nat, staff: int)
    ensures var ms := Current(rows, project);
            RoleOf(rows, project, staff) ==
              if FirstIndex(ms, staff) < 0 then None else Some(ms[FirstIndex(ms, staff)].role)
  {
    if rows != [] {
      var last := |rows| - 1;
      CurrentFirst(rows[..last], project, staff);
      assert rows == rows[..last] + [rows[last]];
      IndexAppend(rows[..last], rows[last], project, staff);
      var before := Current(rows[..last], project);
      if rows[last].project == project {
        assert (before + [Mention(rows[last].staff, rows[last].role)])[..|before|] == before;
      }
    }
  }

  lemma {:induction false} CurrentMember(rows: seq<Assignment>, project: nat, m: Mention)
    ensures m in Current(rows, project) <==>
              exists r :: r in rows && r.project == project && m == Mention(r.staff, r.role)
  {
    if rows != [] {
      var last := |rows| - 1;
      CurrentMember(rows[..last], project, m);
      assert forall r :: r in rows <==> r in rows[..last] || r == rows[last];
    }
  }

  lemma CurrentReached(rows: seq<Assignment>, project: nat, ms: seq<Mention>, staffTable: set<StaffId>)
    requires KnownStaff(rows, staffTable)
    requires forall m | m in ms :: Mentioned(Current(rows, project), m.staffId)
    ensures Reached(ms, staffTable) == |ms|
  {
    var n := Reached(ms, staffTable);
    if n < |ms| {
      assert ms[n] in ms;
      var m :| m in Current(rows, project) && m.staffId == ms[n].staffId;
      CurrentMember(rows, project, m);
    }
  }

  // ----- Soundness --------------------------------------------------------------------------------------

  /** A permuted list without repeats gives every staff member the role they have. */
  lemma RolesAgree(rows: seq<Assignment>, project: nat, requests: seq<Mention>, staff: int)
    requires UniqueStaff(Current(rows, project)) && Mentioned(requests, staff)
    requires forall m | m in requests :: m in Current(rows, project)
    ensures IndexOf(rows, project, staff) >= 0 && RoleOf(rows, project, staff) == LastRole(requests, staff)
  {
    var current := Current(rows, project);
    CurrentFirst(rows, project, staff);
    LastRoleAt(requests, staff);
    var j := LastIndex(requests, staff);
    assert requests[j] in current;
    var k :| 0 <= k < |current| && current[k] == requests[j];
    assert FirstIndex(current, staff) == k;
  }

  /** With one row per staff member the skipped list is a permutation, and running it would change nothing. */
  lemma SkipIsSound(t: Table, project: nat, requests: seq<Mention>, staffTable: set<StaffId>)
    requires KnownStaff(t.rows, staffTable) && UniqueStaff(Current(t.rows, project))
    requires IsSame(Current(t.rows, project), requests)
    ensures multiset(Current(t.rows, project)) == multiset(requests)
    ensures Reached(requests, staffTable) == |requests| && Assigned(t, project, requests, staffTable) == t
  {
    var current := Current(t.rows, project);
    Pigeonhole(current, requests);
    forall m | m in requests ensures m in current {
      assert m in multiset(requests);
    }
    CurrentReached(t.rows, project, requests, staffTable);
    assert requests[..|requests|] == requests;
    forall r | r in t.rows && r.project == project ensures Mentioned(requests, r.staff) {
      CurrentMember(t.rows, project, Mention(r.staff, r.role));
    }
    NothingUnlisted(t.rows, project, requests);
    forall staff: int | Mentioned(requests, staff)
      ensures IndexOf(t.rows, project, staff) >= 0 && RoleOf(t.rows, project, staff) == LastRole(requests, staff)
    {
      RolesAgree(t.rows, project, requests, staff);
    }
    assert forall m | m in requests :: Mentioned(requests, m.staffId);
    NothingChanges(t, project, requests);
  }

  /** A list with the same staff in the same places, another role for one of them at place j. */
  function WithRole(ms: seq<Mention>, j: nat, role: string): seq<Mention>
    requires j < |ms|
  {
    ms[j := Mention(ms[j].staffId, role)]
  }

  lemma WithRoleMentions(ms: seq<Mention>, j: nat, role: string, m: Mention)
    requires j < |ms| && m in WithRole(ms, j, role)
    ensures Mentioned(ms, m.staffId)
  {
    var k :| 0 <= k < |ms| && WithRole(ms, j, role)[k] == m;
    assert ms[k] in ms && ms[k].staffId == m.staffId;
  }

  /** The list differs in nothing but a repeated pair, or not at all. */
  lemma WithRoleIsSame(ms: seq<Mention>, i: nat, j: nat, role: string)
    requires i < j < |ms| && (ms[i] == ms[j] || role == ms[j].role)
    ensures IsSame(ms, WithRole(ms, j, role))
  {
    var requests := WithRole(ms, j, role);
    forall m | m in ms ensures m in requests {
      var k :| 0 <= k < |ms| && ms[k] == m;
      assert requests[if k == j && ms[i] == ms[j] then i else k] == m;
    }
  }

  lemma WithRoleLast(ms: seq<Mention>, j: nat, role: string)
    requires j < |ms| && LastIndex(ms, ms[j].staffId) == j
    ensures LastRole(WithRole(ms, j, role), ms[j].staffId) == Some(role)
  {
    var requests, staff := WithRole(ms, j, role), ms[j].staffId;
    LastRoleAt(requests, staff);
    assert requests[j] in requests && requests[j].staffId == staff;
    assert LastIndex(requests, staff) == j;
  }

  /** Two rows of one staff member are enough for a list that is skipped although running it changes a role. */
  lemma SkipIsUnsound(t: Table, project: nat, staffTable: set<StaffId>) returns (requests: seq<Mention>)
    requires KnownStaff(t.rows, staffTable) && !UniqueStaff(Current(t.rows, project))
    ensures IsSame(Current(t.rows, project), requests)
    ensures Reached(requests, staffTable) == |requests| && Assigned(t, project, requests, staffTable) != t
  {
    var current := Current(t.rows, project);
    var i, j := RepeatedStaff(current);
    var staff := current[i].staffId;
    var role := if current[i].role != current[j].role then current[j].role else current[j].role + "!";
    requests := WithRole(current, j, role);
    WithRoleIsSame(current, i, j, role);
    WithRoleLast(current, j, role);
    forall m | m in requests ensures Mentioned(current, m.staffId) {
      WithRoleMentions(current, j, role, m);
    }
    CurrentReached(t.rows, project, requests, staffTable);
    CurrentMember(t.rows, project, current[i]);
    assert requests[j] in requests && requests[j].staffId == staff;
    CurrentFirst(t.rows, project, staff);
    SynchronisedResult(t, project, requests, staffTable, staff);
  }

  /** The first and the last mention of somebody mentioned twice. */
  lemma RepeatedStaff(ms: seq<Mention>) returns (i: nat, j: nat)
    requires !UniqueStaff(ms)
    ensures i < j < |ms| && ms[i].staffId == ms[j].staffId
    ensures FirstIndex(ms, ms[i].staffId) == i && LastIndex(ms, ms[j].staffId) == j
  {
    var a, b :| 0 <= a < b < |ms| && ms[a].staffId == ms[b].staffId;
    assert ms[a] in ms;
    i, j := FirstIndex(ms, ms[a].staffId), LastIndex(ms, ms[a].staffId);
  }

  /** Skipping is sound for every requested list exactly when the project has one row per staff member. */
  lemma SkipSoundExactly(t: Table, project: nat, staffTable: set<StaffId>)
    requires KnownStaff(t.rows, staffTable)
    ensures (forall requests :: IsSame(Current(t.rows, project), requests) ==>
             Assigned(t, project, requests, staffTable) == t)
            <==> UniqueStaff(Current(t.rows, project))
  {
    if UniqueStaff(Current(t.rows, project)) {
      forall requests | IsSame(Current(t.rows, project), requests)
        ensures Assigned(t, project, requests, staffTable) == t
      {
        SkipIsSound(t, project, requests, staffTable);
      }
    } else {
      var requests := SkipIsUnsound(t, project, staffTable);
    }
  }

  /** The table invariant gives that uniqueness for every project. */
  lemma {:induction false} UniqueRowsGiveUniqueStaff(rows: seq<Assignment>, project: nat)
    requires UniqueRows(rows)
    ensures UniqueStaff(Current(rows, project))
  {
    if rows != [] {
      var last := |rows| - 1;
      var front := rows[..last];
      UniqueRowsGiveUniqueStaff(front, project);
      var before := Current(front, project);
      forall k | 0 <= k < |before| && rows[last].project == project ensures before[k].staffId != rows[last].staff {
        assert before[k] in before;
        CurrentMember(front, project, before[k]);
        var r :| r in front && r.project == project && before[k] == Mention(r.staff, r.role);
        var n :| 0 <= n < last && front[n] == r;
        assert rows[n] == r;
      }
    }
  }

  class ProjectsService {
    var rows: seq<Assignment>
    var nextId: nat

    ghost function State(): Table
      reads this
    {
      Table(rows, nextId)
    }

    constructor ()
      ensures rows == [] && UniqueRows(rows)
    {
      rows, nextId := [], 1;
    }

    /** `authorized`, `projectFound` and `staffTable` are what the other tables answer. */
    method AssignMultipleStaff(projectId: nat, assignments: seq<Mention>, authorized: bool, projectFound: bool,
                               staffTable: set<StaffId>)
      returns (r: Result<seq<Assignment>, AssignError>)
      requires UniqueRows(rows)
      modifies this
      ensures UniqueRows(rows)
      ensures !authorized ==> r == Failure(NotAuthorized) && State() == old(State())
      ensures authorized && !projectFound ==> r == Failure(ProjectNotFound) && State() == old(State())
      ensures authorized && projectFound ==>
                var n := Reached(assignments, staffTable);
                && State() == Assigned(old(State()), projectId, assignments, staffTable)
                && (n < |assignments| ==> r == Failure(StaffNotFound(assignments[n].staffId)))
                && (n == |assignments| ==> r.Success? && |r.value| == |Named(assignments)|)
                && (n == |assignments| ==>
                      forall k | 0 <= k < |r.value| ::
                        r.value[k].project == projectId &&
                        Mention(r.value[k].staff, r.value[k].role) == Named(assignments)[k])
    {
      if !authorized {
        return Failure(NotAuthorized);
      }
      if !projectFound {
        return Failure(ProjectNotFound);
      }
      ghost var before := State();
      RemoveUnlisted(projectId, assignments);
      ghost var kept := State();
      var results: seq<Assignment> := [];
      for i := 0 to |assignments|
        invariant i <= Reached(assignments, staffTable)
        invariant State() == AllApplied(kept, projectId, assignments[..i])
        invariant |results| == |Named(assignments[..i])|
        invariant forall k | 0 <= k < |results| ::
                  results[k].project == projectId &&
                  Mention(results[k].staff, results[k].role) == Named(assignments[..i])[k]
      {
        var m := assignments[i];
        assert assignments[..i + 1][..i] == assignments[..i];
        if m.staffId > 0 {
          if m.staffId !in staffTable {
            AssignedUnique(before, projectId, assignments, staffTable);
            return Failure(StaffNotFound(m.staffId));
          }
          var assignment := AssignOne(projectId, m);
          results := results + [assignment];
        }
      }
      assert assignments[..|assignments|] == assignments;
      AssignedUnique(before, projectId, assignments, staffTable);
      r := Success(results);
    }

    /** The turn of the loop for an entry that names a staff member. */
    method AssignOne(projectId: nat, m: Mention) returns (assignment: Assignment)
      requires m.staffId > 0
      modifies this
      ensures State() == Applied(old(State()), projectId, m)
      ensures assignment in rows && assignment.project == projectId && Mention(assignment.staff, assignment.role) == m
    {
      var existing := IndexOf(rows, projectId, m.staffId);
      if existing >= 0 {
        if rows[existing].role != m.role {
          rows := rows[existing := rows[existing].(role := m.role)];
        }
        assignment := rows[existing];
      } else {
        assignment := Assignment(nextId, projectId, m.staffId, m.role);
        rows, nextId := rows + [assignment], nextId + 1;
      }
    }

    method RemoveUnlisted(projectId: nat, assignments: seq<Mention>)
      modifies this`rows
      ensures rows == WithoutUnlisted(old(rows), projectId, assignments)
    {
      var kept := [];
      for i := 0 to |rows|
        invariant rows == old(rows)
        invariant kept == WithoutUnlisted(rows[..i], projectId, assignments)
      {
        assert rows[..i + 1][..i] == rows[..i];
        if !(rows[i].project == projectId && !Mentioned(assignments, rows[i].staff)) {
          kept := kept + [rows[i]];
        }
      }
      assert rows[..|rows|] == rows;
      rows := kept;
    }

    /** The assignment part of a project update: nothing requested, looks the same, or synchronise. */
    method UpdateAssignments(projectId: nat, requested: Option<seq<Mention>>, authorized: bool, projectFound: bool,
                             staffTable: set<StaffId>)
      returns (r: Result<bool, AssignError>)
      requires UniqueRows(rows) && KnownStaff(rows, staffTable)
      modifies this
      ensures UniqueRows(rows)
      ensures !authorized ==> r == Failure(NotAuthorized) && State() == old(State())
      ensures authorized && !projectFound ==> r == Failure(ProjectNotFound) && State() == old(State())
      ensures authorized && projectFound && requested.None? ==> r == Success(false) && State() == old(State())
      ensures authorized && projectFound && requested.Some? ==>
                && State() == Assigned(old(State()), projectId, requested.value, staffTable)
                && (r.Success? <==> Reached(requested.value, staffTable) == |requested.value|)
                && (r.Failure? ==>
                      r.error == StaffNotFound(requested.value[Reached(requested.value, staffTable)].staffId))
                && (r.Success? ==> r.value == !IsSame(Current(old(rows), projectId), requested.value))
                && (r == Success(false) ==> State() == old(State()))
    {
      if !authorized {
        return Failure(NotAuthorized);
      }
      if !projectFound {
        return Failure(ProjectNotFound);
      }
      if requested.None? {
        return Success(false);
      }
      var oldAssignments := Current(rows, projectId);
      if IsSame(oldAssignments, requested.value) {
        UniqueRowsGiveUniqueStaff(rows, projectId);
        SkipIsSound(State(), projectId, requested.value, staffTable);
        return Success(false);
      }
      var updated := AssignMultipleStaff(projectId, requested.value, authorized, projectFound, staffTable);
      if updated.Failure? {
        return Failure(updated.error);
      }
      r := Success(true);
    }
  }
}
