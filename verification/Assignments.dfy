/** Synchronising the staff assigned to a project with a requested list. */
module Assignments {
  import opened Common

  type StaffId = nat

  /** A row of the assignment table; the id comes from the table's sequence. */
  datatype Assignment = Assignment(id: nat, project: nat, staff: StaffId, role: string)

  /** One entry of the requested list; the number may be anything a client sends. */
  datatype Mention = Mention(staffId: int, role: string)

  datatype Table = Table(rows: seq<Assignment>, nextId: nat)

  datatype AssignError = NotAuthorized | ProjectNotFound | StaffNotFound(staffId: int)

  // ----- The loop ---------------------------------------------------------------------------------------

  predicate Mentioned(requests: seq<Mention>, staff: int) {
    exists m :: m in requests && m.staffId == staff
  }

  /** Row removal: what stays of the table when the project's rows outside the list go. */
  function WithoutUnlisted(rows: seq<Assignment>, project: nat, requests: seq<Mention>): seq<Assignment> {
    if rows == [] then []
    else
      var rest := WithoutUnlisted(rows[..|rows| - 1], project, requests);
      var last := rows[|rows| - 1];
      if last.project == project && !Mentioned(requests, last.staff) then rest else rest + [last]
  }

  /** The position of the first row of a project and staff member, or -1. */
  function IndexOf(rows: seq<Assignment>, project: nat, staff: int): (i: int)
    ensures -1 <= i < |rows|
    ensures i >= 0 ==> rows[i].project == project && rows[i].staff == staff &&
                       forall j | 0 <= j < i :: !(rows[j].project == project && rows[j].staff == staff)
    ensures i < 0 ==> forall r | r in rows :: !(r.project == project && r.staff == staff)
  {
    if rows == [] then -1
    else if rows[0].project == project && rows[0].staff == staff then 0
    else
      var rest := IndexOf(rows[1..], project, staff);
      if rest < 0 then -1 else rest + 1
  }

  /** One entry applied: an invalid number is skipped, a known row gets the role, otherwise a row is added. */
  function Applied(t: Table, project: nat, m: Mention): Table {
    if m.staffId <= 0 then t
    else
      var i := IndexOf(t.rows, project, m.staffId);
      if i >= 0 then t.(rows := t.rows[i := t.rows[i].(role := m.role)])
      else Table(t.rows + [Assignment(t.nextId, project, m.staffId, m.role)], t.nextId + 1)
  }

  /** The entries before the first one that names an unknown staff member. */
  function Reached(requests: seq<Mention>, staffTable: set<StaffId>): (n: nat)
    ensures n <= |requests|
    ensures forall k | 0 <= k < n :: requests[k].staffId <= 0 || requests[k].staffId in staffTable
    ensures n < |requests| ==> requests[n].staffId > 0 && requests[n].staffId !in staffTable
  {
    if requests == [] then 0
    else if requests[0].staffId > 0 && requests[0].staffId !in staffTable then 0
    else 1 + Reached(requests[1..], staffTable)
  }

  /** The entries with a valid number, in order. */
  function Named(requests: seq<Mention>): seq<Mention> {
    if requests == [] then []
    else
      var rest := Named(requests[..|requests| - 1]);
      if requests[|requests| - 1].staffId > 0 then rest + [requests[|requests| - 1]] else rest
  }

  function AllApplied(t: Table, project: nat, requests: seq<Mention>): Table {
    if requests == [] then t
    else Applied(AllApplied(t, project, requests[..|requests| - 1]), project, requests[|requests| - 1])
  }

  /** The table after the call: entries before a failing one stay applied, as nothing rolls them back. */
  function Assigned(t: Table, project: nat, requests: seq<Mention>, staffTable: set<StaffId>): Table {
    AllApplied(t.(rows := WithoutUnlisted(t.rows, project, requests)), project,
               requests[..Reached(requests, staffTable)])
  }

  // ----- The fast path ----------------------------------------------------------------------------------

  /** The project's current assignments as the list `updateProject` compares. */
  function Current(rows: seq<Assignment>, project: nat): seq<Mention> {
    if rows == [] then []
    else
      var rest := Current(rows[..|rows| - 1], project);
      var last := rows[|rows| - 1];
      if last.project == project then rest + [Mention(last.staff, last.role)] else rest
  }

  /** Same length, and every old pair occurs in the new list. */
  predicate IsSame(before: seq<Mention>, after: seq<Mention>) {
    |before| == |after| && forall m | m in before :: m in after
  }

  // ----- Invariant --------------------------------------------------------------------------------------

  /** One row per project and staff member. The table has no such index; the operation keeps it. */
  ghost predicate UniqueRows(rows: seq<Assignment>) {
    forall i, j | 0 <= i < j < |rows| :: rows[i].project != rows[j].project || rows[i].staff != rows[j].staff
  }

  function RowsOf(rows: seq<Assignment>, project: nat, staff: int): nat {
    Count(rows, (r: Assignment) => r.project == project && r.staff == staff)
  }

  /** The role a list ends up giving a staff member: that of the last mention. */
  function LastRole(requests: seq<Mention>, staff: int): Option<string> {
    if requests == [] then None
    else if requests[|requests| - 1].staffId == staff then Some(requests[|requests| - 1].role)
    else LastRole(requests[..|requests| - 1], staff)
  }

  /** The role a staff member has in a project, by the first row. */
  function RoleOf(rows: seq<Assignment>, project: nat, staff: int): Option<string> {
    var i := IndexOf(rows, project, staff);
    if i < 0 then None else Some(rows[i].role)
  }

  function IdOf(rows: seq<Assignment>, project: nat, staff: int): Option<nat> {
    var i := IndexOf(rows, project, staff);
    if i < 0 then None else Some(rows[i].id)
  }

  /** The rows of all other projects, in table order. */
  function Others(rows: seq<Assignment>, project: nat): seq<Assignment> {
    if rows == [] then []
    else
      var rest := Others(rows[..|rows| - 1], project);
      if rows[|rows| - 1].project != project then rest + [rows[|rows| - 1]] else rest
  }
}
