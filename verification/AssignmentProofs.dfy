/** What a synchronisation leaves behind, and when skipping it is sound. */
module AssignmentProofs {
  import opened Common
  import opened Assignments

  // ----- Positions --------------------------------------------------------------------------------------

  /** The found position is the only first match. */
  lemma IndexIs(rows: seq<Assignment>, project: nat, staff: int, i: nat)
    requires i < |rows| && rows[i].project == project && rows[i].staff == staff
    requires forall j | 0 <= j < i :: !(rows[j].project == project && rows[j].staff == staff)
    ensures IndexOf(rows, project, staff) == i
  {
    assert rows[i] in rows;
  }

  lemma IndexAppend(rows: seq<Assignment>, r: Assignment, project: nat, staff: int)
    ensures IndexOf(rows + [r], project, staff) ==
            if IndexOf(rows, project, staff) >= 0 then IndexOf(rows, project, staff)
            else if r.project == project && r.staff == staff then |rows| else -1
  {
    var i := IndexOf(rows, project, staff);
    var more := rows + [r];
    assert forall j | 0 <= j < |rows| :: more[j] == rows[j] && rows[j] in rows;
    if i >= 0 {
      IndexIs(more, project, staff, i);
    } else if r.project == project && r.staff == staff {
      IndexIs(more, project, staff, |rows|);
    }
  }

  lemma IndexRole(rows: seq<Assignment>, k: nat, role: string, project: nat, staff: int)
    requires k < |rows|
    ensures IndexOf(rows[k := rows[k].(role := role)], project, staff) == IndexOf(rows, project, staff)
  {
    var i := IndexOf(rows, project, staff);
    var after := rows[k := rows[k].(role := role)];
    assert forall j | 0 <= j < |rows| ::
        after[j].project == rows[j].project && after[j].staff == rows[j].staff && rows[j] in rows;
    if i >= 0 {
      IndexIs(after, project, staff, i);
    }
  }

  // ----- One entry --------------------------------------------------------------------------------------

  /** An entry decides the role of its own staff member and of nobody else; known rows keep their ids. */
  lemma AppliedRole(t: Table, project: nat, m: Mention, other: nat, staff: int)
    ensures RoleOf(Applied(t, project, m).rows, other, staff) ==
            if m.staffId > 0 && other == project && staff == m.staffId then Some(m.role)
              else RoleOf(t.rows, other, staff)
    ensures IdOf(t.rows, other, staff).Some? ==>
              IdOf(Applied(t, project, m).rows, other, staff) == IdOf(t.rows, other, staff)
  {
    if m.staffId > 0 {
      var i := IndexOf(t.rows, project, m.staffId);
      if i >= 0 {
        IndexRole(t.rows, i, m.role, other, staff);
      } else {
        IndexAppend(t.rows, Assignment(t.nextId, project, m.staffId, m.role), other, staff);
      }
    }
  }

  lemma {:induction false} CountRole(rows: seq<Assignment>, k: nat, role: string, project: nat, staff: int)
    requires k < |rows|
    ensures RowsOf(rows[k := rows[k].(role := role)], project, staff) == RowsOf(rows, project, staff)
  {
    var p := (r: Assignment) => r.project == project && r.staff == staff;
    var last := |rows| - 1;
    var after := rows[k := rows[k].(role := role)];
    if k < last {
      CountRole(rows[..last], k, role, project, staff);
      assert after[..last] == rows[..last][k := rows[k].(role := role)];
    } else {
      assert after[..last] == rows[..last];
    }
  }

  lemma NoRows(rows: seq<Assignment>, project: nat, staff: int)
    ensures RowsOf(rows, project, staff) == 0 <==> IndexOf(rows, project, staff) < 0
  {
    var p := (r: Assignment) => r.project == project && r.staff == staff;
    if IndexOf(rows, project, staff) < 0 {
      CountNone(rows, p);
    } else {
      CountSome(rows, IndexOf(rows, project, staff), p);
    }
  }

  lemma {:induction false} CountSome<T>(xs: seq<T>, i: nat, p: T -> bool)
    requires i < |xs| && p(xs[i])
    ensures Count(xs, p) > 0
  {
    if i < |xs| - 1 {
      CountSome(xs[..|xs| - 1], i, p);
    }
  }

  function AtLeastOne(n: nat): nat {
    if n == 0 then 1 else n
  }

  lemma AppliedCount(t: Table, project: nat, m: Mention, other: nat, staff: int)
    ensures RowsOf(Applied(t, project, m).rows, other, staff) ==
            if m.staffId > 0 && other == project && staff == m.staffId then AtLeastOne(RowsOf(t.rows, other, staff))
            else RowsOf(t.rows, other, staff)
  {
    if m.staffId > 0 {
      var i := IndexOf(t.rows, project, m.staffId);
      NoRows(t.rows, project, m.staffId);
      if i >= 0 {
        CountRole(t.rows, i, m.role, other, staff);
      } else {
        CountAppend(t.rows, Assignment(t.nextId, project, m.staffId, m.role),
                    (r: Assignment) => r.project == other && r.staff == staff);
      }
    }
  }

  // ----- All entries ------------------------------------------------------------------------------------

  lemma MentionedAppend(requests: seq<Mention>, staff: int)
    requires requests != []
    ensures Mentioned(requests, staff) <==>
              requests[|requests| - 1].staffId == staff || Mentioned(requests[..|requests| - 1], staff)
  {
    assert requests == requests[..|requests| - 1] + [requests[|requests| - 1]];
  }

  lemma {:induction false} AllAppliedResult(t: Table, project: nat, requests: seq<Mention>, other: nat, staff: int)
    ensures var after := AllApplied(t, project, requests);
            var hit := other == project && staff > 0 && Mentioned(requests, staff);
            && RowsOf(after.rows, other, staff) ==
               (if hit then AtLeastOne(RowsOf(t.rows, other, staff)) else RowsOf(t.rows, other, staff))
            && RoleOf(after.rows, other, staff) ==
              (if hit then LastRole(requests, staff) else RoleOf(t.rows, other, staff))
            && (IdOf(t.rows, other, staff).Some? ==> IdOf(after.rows, other, staff) == IdOf(t.rows, other, staff))
  {
    if requests != [] {
      var last := |requests| - 1;
      MentionedAppend(requests, staff);
      AllAppliedResult(t, project, requests[..last], other, staff);
      var before := AllApplied(t, project, requests[..last]);
      AppliedRole(before, project, requests[last], other, staff);
      AppliedCount(before, project, requests[last], other, staff);
    }
  }

  lemma {:induction false} UnlistedRows(rows: seq<Assignment>, project: nat,
                                        requests: seq<Mention>, other: nat, staff: int)
    ensures RowsOf(WithoutUnlisted(rows, project, requests), other, staff) ==
            if other == project && !Mentioned(requests, staff) then 0 else RowsOf(rows, other, staff)
  {
    if rows != [] {
      var last := |rows| - 1;
      UnlistedRows(rows[..last], project, requests, other, staff);
      CountAppend(WithoutUnlisted(rows[..last], project, requests), rows[last],
                  (r: Assignment) => r.project == other && r.staff == staff);
    }
  }

  /** What the first row of a staff member says carries over to a longer table. */
  lemma FirstAppend(rows: seq<Assignment>, r: Assignment, project: nat, staff: int)
    ensures RoleOf(rows + [r], project, staff) ==
            if RoleOf(rows, project, staff).Some? then RoleOf(rows, project, staff)
            else if r.project == project && r.staff == staff then Some(r.role) else None
    ensures IdOf(rows + [r], project, staff) ==
            if IdOf(rows, project, staff).Some? then IdOf(rows, project, staff)
            else if r.project == project && r.staff == staff then Some(r.id) else None
  {
    IndexAppend(rows, r, project, staff);
  }

  lemma {:induction false} UnlistedResult(rows: seq<Assignment>, project: nat,
                                          requests: seq<Mention>, other: nat, staff: int)
    requires other != project || Mentioned(requests, staff)
    ensures RoleOf(WithoutUnlisted(rows, project, requests), other, staff) == RoleOf(rows, other, staff)
    ensures IdOf(WithoutUnlisted(rows, project, requests), other, staff) == IdOf(rows, other, staff)
  {
    if rows != [] {
      var last := |rows| - 1;
      UnlistedResult(rows[..last], project, requests, other, staff);
      assert rows == rows[..last] + [rows[last]];
      FirstAppend(rows[..last], rows[last], other, staff);
      FirstAppend(WithoutUnlisted(rows[..last], project, requests), rows[last], other, staff);
    }
  }

  lemma OthersAppend(rows: seq<Assignment>, r: Assignment, project: nat)
    ensures Others(rows + [r], project) ==
            if r.project != project then Others(rows, project) + [r] else Others(rows, project)
  {
    assert (rows + [r])[..|rows|] == rows;
  }

  lemma {:induction false} UnlistedOthers(rows: seq<Assignment>, project: nat, requests: seq<Mention>)
    ensures Others(WithoutUnlisted(rows, project, requests), project) == Others(rows, project)
  {
    if rows != [] {
      var last := |rows| - 1;
      UnlistedOthers(rows[..last], project, requests);
      OthersAppend(WithoutUnlisted(rows[..last], project, requests), rows[last], project);
    }
  }

  lemma {:induction false} OthersRole(rows: seq<Assignment>, k: nat, role: string, project: nat)
    requires k < |rows| && rows[k].project == project
    ensures Others(rows[k := rows[k].(role := role)], project) == Others(rows, project)
  {
    var last := |rows| - 1;
    var after := rows[k := rows[k].(role := role)];
    if k < last {
      OthersRole(rows[..last], k, role, project);
      assert after[..last] == rows[..last][k := rows[k].(role := role)];
    } else {
      assert after[..last] == rows[..last];
    }
  }

  lemma {:induction false} AllAppliedOthers(t: Table, project: nat, requests: seq<Mention>)
    ensures Others(AllApplied(t, project, requests).rows, project) == Others(t.rows, project)
  {
    if requests != [] {
      var last := |requests| - 1;
      AllAppliedOthers(t, project, requests[..last]);
      var before := AllApplied(t, project, requests[..last]);
      var m := requests[last];
      if m.staffId > 0 {
        var i := IndexOf(before.rows, project, m.staffId);
        if i >= 0 {
          OthersRole(before.rows, i, m.role, project);
        } else {
          OthersAppend(before.rows, Assignment(before.nextId, project, m.staffId, m.role), project);
        }
      }
    }
  }

  /**
   A synchronisation that succeeds leaves no row outside the list, one row for each valid staff id that had
   at most one (never more than there were), with the role of its last mention and its old id if it had one,
   and it touches no other project's rows.
   */
  lemma SynchronisedResult(t: Table, project: nat, requests: seq<Mention>, staffTable: set<StaffId>, staff: int)
    requires Reached(requests, staffTable) == |requests|
    ensures var after := Assigned(t, project, requests, staffTable);
            && Others(after.rows, project) == Others(t.rows, project)
            && (!Mentioned(requests, staff) ==> RowsOf(after.rows, project, staff) == 0)
            && (Mentioned(requests, staff) && staff > 0 ==>
                  && RowsOf(after.rows, project, staff) == AtLeastOne(RowsOf(t.rows, project, staff))
                  && (UniqueRows(t.rows) ==> RowsOf(after.rows, project, staff) == 1)
                  && RoleOf(after.rows, project, staff) == LastRole(requests, staff)
                  && (IdOf(t.rows, project, staff).Some? ==>
                      IdOf(after.rows, project, staff) == IdOf(t.rows, project, staff)))
  {
    var kept := t.(rows := WithoutUnlisted(t.rows, project, requests));
    assert requests[..|requests|] == requests;
    UnlistedRows(t.rows, project, requests, project, staff);
    if Mentioned(requests, staff) {
      UnlistedResult(t.rows, project, requests, project, staff);
    }
    UnlistedOthers(t.rows, project, requests);
    AllAppliedResult(kept, project, requests, project, staff);
    AllAppliedOthers(kept, project, requests);
    if UniqueRows(t.rows) {
      OneRowAtMost(t.rows, project, staff);
    }
  }

  /**
   The same for every call, also one that fails: the first n entries are those before the first unknown number.
   Whoever is not listed at all is gone, whoever is listed only later stays as they were.
   */
  lemma PartialResult(t: Table, project: nat, requests: seq<Mention>, staffTable: set<StaffId>, staff: int, n: nat)
    requires n <= |requests| && forall k | 0 <= k < n :: requests[k].staffId <= 0 || requests[k].staffId in staffTable
    requires n < |requests| ==> requests[n].staffId > 0 && requests[n].staffId !in staffTable
    ensures var after := Assigned(t, project, requests, staffTable);
            && Others(after.rows, project) == Others(t.rows, project)
            && (!Mentioned(requests, staff) ==> RowsOf(after.rows, project, staff) == 0)
            && (Mentioned(requests[..n], staff) && staff > 0 ==>
                  && RowsOf(after.rows, project, staff) == AtLeastOne(RowsOf(t.rows, project, staff))
                  && RoleOf(after.rows, project, staff) == LastRole(requests[..n], staff))
            && (Mentioned(requests, staff) && !(Mentioned(requests[..n], staff) && staff > 0) ==>
                  && RowsOf(after.rows, project, staff) == RowsOf(t.rows, project, staff)
                  && RoleOf(after.rows, project, staff) == RoleOf(t.rows, project, staff))
  {
    assert n == Reached(requests, staffTable);
    var kept := t.(rows := WithoutUnlisted(t.rows, project, requests));
    UnlistedRows(t.rows, project, requests, project, staff);
    if m :| m in requests[..n] && m.staffId == staff {
      assert m in requests && Mentioned(requests, staff);
    }
    if Mentioned(requests, staff) {
      UnlistedResult(t.rows, project, requests, project, staff);
    }
    UnlistedOthers(t.rows, project, requests);
    AllAppliedResult(kept, project, requests[..n], project, staff);
    AllAppliedOthers(kept, project, requests[..n]);
  }

  /** Ids come from the sequence: all below its next value, and none twice. */
  ghost predicate NumberedRows(t: Table) {
    && (forall r | r in t.rows :: r.id < t.nextId)
    && (forall i, j | 0 <= i < j < |t.rows| :: t.rows[i].id != t.rows[j].id)
  }

  lemma {:induction false} UnlistedNumbered(rows: seq<Assignment>, project: nat, requests: seq<Mention>, nextId: nat)
    requires NumberedRows(Table(rows, nextId))
    ensures NumberedRows(Table(WithoutUnlisted(rows, project, requests), nextId))
    ensures forall r | r in WithoutUnlisted(rows, project, requests) :: r in rows
  {
    if rows != [] {
      var last := |rows| - 1;
      UnlistedNumbered(rows[..last], project, requests, nextId);
      var kept := WithoutUnlisted(rows[..last], project, requests);
      forall r | r in kept ensures r.id != rows[last].id {
        var k :| 0 <= k < last && rows[..last][k] == r;
        assert rows[k] == r;
      }
      assert forall k | 0 <= k < |kept| :: kept[k] in kept;
    }
  }

  lemma {:induction false} AllAppliedNumbered(t: Table, project: nat, requests: seq<Mention>)
    requires NumberedRows(t)
    ensures var after := AllApplied(t, project, requests);
            NumberedRows(after) &&
            forall r | r in after.rows && r.id < t.nextId :: exists o :: o in t.rows && o == r.(role := o.role)
    ensures AllApplied(t, project, requests).nextId - t.nextId ==
            |AllApplied(t, project, requests).rows| - |t.rows| >= 0
  {
    if requests == [] {
      assert forall r | r in t.rows :: r == r.(role := r.role);
    } else {
      var last := |requests| - 1;
      AllAppliedNumbered(t, project, requests[..last]);
      var before := AllApplied(t, project, requests[..last]);
      var after := AllApplied(t, project, requests);
      var m := requests[last];
      var i := IndexOf(before.rows, project, m.staffId);
      assert forall k | 0 <= k < |before.rows| :: before.rows[k] in before.rows;
      forall r | r in after.rows && r.id < t.nextId ensures exists o :: o in t.rows && o == r.(role := o.role) {
        if r !in before.rows {
          assert m.staffId > 0 && i >= 0 && r == before.rows[i].(role := m.role);
          var o :| o in t.rows && o == before.rows[i].(role := o.role);
          assert o == r.(role := o.role);
        }
      }
    }
  }

  /**
   Every call keeps the ids apart; a row with an old id is an old row, but for its role, and the sequence moves on
   once for every row that is added.
   */
  lemma AssignedNumbered(t: Table, project: nat, requests: seq<Mention>, staffTable: set<StaffId>)
    requires NumberedRows(t)
    ensures var after, kept := Assigned(t, project, requests, staffTable), WithoutUnlisted(t.rows, project, requests);
            && NumberedRows(after)
            && (forall r | r in after.rows && r.id < t.nextId :: exists o :: o in t.rows && o == r.(role := o.role))
            && after.nextId - t.nextId == |after.rows| - |kept| >= 0
  {
    UnlistedNumbered(t.rows, project, requests, t.nextId);
    AllAppliedNumbered(t.(rows := WithoutUnlisted(t.rows, project, requests)), project,
                       requests[..Reached(requests, staffTable)]);
  }

  /** The results of a call are for the entries with a valid number, each as often as listed. */
  lemma {:induction false} NamedAre(requests: seq<Mention>, m: Mention)
    ensures multiset(Named(requests))[m] == if m.staffId > 0 then multiset(requests)[m] else 0
  {
    if requests != [] {
      var front, last := requests[..|requests| - 1], requests[|requests| - 1];
      NamedAre(front, m);
      assert requests == front + [last];
    }
  }

  /** And in their order. */
  lemma {:induction false} NamedInOrder(requests: seq<Mention>, more: seq<Mention>)
    ensures Named(requests + more) == Named(requests) + Named(more)
  {
    if more == [] {
      assert requests + more == requests;
    } else {
      var front, last := more[..|more| - 1], more[|more| - 1];
      NamedInOrder(requests, front);
      assert requests + more == (requests + front) + [last];
      assert ((requests + front) + [last])[..|requests + front|] == requests + front;
    }
  }

  lemma {:induction false} OneRowAtMost(rows: seq<Assignment>, project: nat, staff: int)
    requires UniqueRows(rows)
    ensures RowsOf(rows, project, staff) <= 1
  {
    if rows != [] {
      var last := |rows| - 1;
      OneRowAtMost(rows[..last], project, staff);
      if rows[last].project == project && rows[last].staff == staff {
        CountNone(rows[..last], (r: Assignment) => r.project == project && r.staff == staff);
      }
    }
  }

  // ----- Uniqueness over every run ----------------------------------------------------------------------

  lemma AppliedUnique(t: Table, project: nat, m: Mention)
    requires UniqueRows(t.rows)
    ensures UniqueRows(Applied(t, project, m).rows)
  {
    if m.staffId > 0 {
      assert forall k | 0 <= k < |t.rows| :: t.rows[k] in t.rows;
    }
  }

  lemma {:induction false} AllAppliedUnique(t: Table, project: nat, requests: seq<Mention>)
    requires UniqueRows(t.rows)
    ensures UniqueRows(AllApplied(t, project, requests).rows)
  {
    if requests != [] {
      AllAppliedUnique(t, project, requests[..|requests| - 1]);
      AppliedUnique(AllApplied(t, project, requests[..|requests| - 1]), project, requests[|requests| - 1]);
    }
  }

  lemma {:induction false} UnlistedUnique(rows: seq<Assignment>, project: nat, requests: seq<Mention>)
    requires UniqueRows(rows)
    ensures UniqueRows(WithoutUnlisted(rows, project, requests))
    ensures forall r | r in WithoutUnlisted(rows, project, requests) :: r in rows
  {
    if rows != [] {
      var last := |rows| - 1;
      var front := rows[..last];
      UnlistedUnique(front, project, requests);
      var kept := WithoutUnlisted(front, project, requests);
      forall r | r in kept ensures r.project != rows[last].project || r.staff != rows[last].staff {
        var k :| 0 <= k < last && front[k] == r;
        assert rows[k] == r;
      }
      assert forall k | 0 <= k < |kept| :: kept[k] in kept;
    }
  }

  /** Every call, also one that fails half-way, keeps one row per project and staff member. */
  lemma AssignedUnique(t: Table, project: nat, requests: seq<Mention>, staffTable: set<StaffId>)
    requires UniqueRows(t.rows)
    ensures UniqueRows(Assigned(t, project, requests, staffTable).rows)
  {
    UnlistedUnique(t.rows, project, requests);
    AllAppliedUnique(t.(rows := WithoutUnlisted(t.rows, project, requests)), project,
                     requests[..Reached(requests, staffTable)]);
  }

  // ----- Applying a list whose staff all have rows ------------------------------------------------------

  ghost predicate AllPresent(rows: seq<Assignment>, project: nat, requests: seq<Mention>) {
    forall m | m in requests && m.staffId > 0 :: IndexOf(rows, project, m.staffId) >= 0
  }

  lemma {:induction false} LastRoleMentioned(requests: seq<Mention>, staff: int)
    ensures LastRole(requests, staff).Some? <==> Mentioned(requests, staff)
  {
    if requests != [] {
      MentionedAppend(requests, staff);
      LastRoleMentioned(requests[..|requests| - 1], staff);
    }
  }

  /** Then nothing is added and no row moves. */
  lemma {:induction false} NothingMoves(t: Table, project: nat, requests: seq<Mention>)
    requires AllPresent(t.rows, project, requests)
    ensures AllApplied(t, project, requests).nextId == t.nextId
    ensures |AllApplied(t, project, requests).rows| == |t.rows|
    ensures forall staff ::
            IndexOf(AllApplied(t, project, requests).rows, project, staff) == IndexOf(t.rows, project, staff)
  {
    if requests != [] {
      var last := |requests| - 1;
      var m := requests[last];
      assert m in requests && forall x | x in requests[..last] :: x in requests;
      NothingMoves(t, project, requests[..last]);
      if m.staffId > 0 {
        var before := AllApplied(t, project, requests[..last]);
        forall staff
          ensures IndexOf(AllApplied(t, project, requests).rows, project, staff) == IndexOf(t.rows, project, staff)
        {
          IndexRole(before.rows, IndexOf(before.rows, project, m.staffId), m.role, project, staff);
        }
      }
    }
  }

  /** The row at a position after applying the list: only the first row of a mentioned staff member changes. */
  function Rewritten(rows: seq<Assignment>, project: nat, requests: seq<Mention>, k: nat): Assignment
    requires k < |rows|
  {
    var r := rows[k];
    var role := LastRole(requests, r.staff);
    if r.project == project && r.staff > 0 && IndexOf(rows, project, r.staff) == k && role.Some?
      then r.(role := role.value) else r
  }

  lemma {:induction false} OnlyRolesChange(t: Table, project: nat, requests: seq<Mention>, k: nat)
    requires AllPresent(t.rows, project, requests) && k < |t.rows|
    ensures |AllApplied(t, project, requests).rows| == |t.rows|
    ensures AllApplied(t, project, requests).rows[k] == Rewritten(t.rows, project, requests, k)
  {
    if requests != [] {
      var front, m := requests[..|requests| - 1], requests[|requests| - 1];
      assert m in requests && forall x | x in front :: x in requests;
      OnlyRolesChange(t, project, front, k);
      NothingMoves(t, project, front);
      OneRoleChanges(AllApplied(t, project, front), project, m, k);
    }
  }

  lemma OneRoleChanges(t: Table, project: nat, m: Mention, k: nat)
    requires k < |t.rows| && (m.staffId > 0 ==> IndexOf(t.rows, project, m.staffId) >= 0)
    ensures |Applied(t, project, m).rows| == |t.rows|
    ensures Applied(t, project, m).rows[k] ==
            if m.staffId > 0 && IndexOf(t.rows, project, m.staffId) == k then t.rows[k].(role := m.role) else t.rows[k]
  {
  }

  /** If moreover every first row already has the last role, nothing changes at all. */
  lemma NothingChanges(t: Table, project: nat, requests: seq<Mention>)
    requires AllPresent(t.rows, project, requests)
    requires forall staff: int | staff > 0 && Mentioned(requests, staff) ::
             RoleOf(t.rows, project, staff) == LastRole(requests, staff)
    ensures AllApplied(t, project, requests) == t
  {
    NothingMoves(t, project, requests);
    var after := AllApplied(t, project, requests);
    forall k | 0 <= k < |t.rows| ensures after.rows[k] == t.rows[k] {
      OnlyRolesChange(t, project, requests, k);
      LastRoleMentioned(requests, t.rows[k].staff);
    }
    assert after.rows == t.rows;
  }

  lemma {:induction false} NothingUnlisted(rows: seq<Assignment>, project: nat, requests: seq<Mention>)
    requires forall r | r in rows && r.project == project :: Mentioned(requests, r.staff)
    ensures WithoutUnlisted(rows, project, requests) == rows
  {
    if rows != [] {
      var last := |rows| - 1;
      assert rows[last] in rows;
      assert WithoutUnlisted(rows[..last], project, requests) == rows[..last] by {
        assert forall r | r in rows[..last] :: r in rows;
        NothingUnlisted(rows[..last], project, requests);
      }
      assert rows == rows[..last] + [rows[last]];
    }
  }

  /** Synchronising twice with the same list changes nothing the second time. */
  lemma SynchronisingTwice(t: Table, project: nat, requests: seq<Mention>, staffTable: set<StaffId>)
    requires Reached(requests, staffTable) == |requests|
    ensures var once := Assigned(t, project, requests, staffTable);
            Assigned(once, project, requests, staffTable) == once
  {
    var once := Assigned(t, project, requests, staffTable);
    assert requests[..|requests|] == requests;
    forall r | r in once.rows && r.project == project ensures Mentioned(requests, r.staff) {
      SynchronisedResult(t, project, requests, staffTable, r.staff);
      NoRows(once.rows, project, r.staff);
    }
    NothingUnlisted(once.rows, project, requests);
    forall staff: int | staff > 0 && Mentioned(requests, staff)
      ensures IndexOf(once.rows, project, staff) >= 0 && RoleOf(once.rows, project, staff) == LastRole(requests, staff)
    {
      SynchronisedResult(t, project, requests, staffTable, staff);
      NoRows(once.rows, project, staff);
    }
    assert forall m | m in requests :: Mentioned(requests, m.staffId);
    NothingChanges(once, project, requests);
  }
}
