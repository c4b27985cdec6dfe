/** Completion rates, the staff directory's ranges and pages, and the workload of one staff member. */
module Directory {
  import opened Common
  import opened Progress

  // ----- Rates ------------------------------------------------------------------------------------------

  datatype Stats = Stats(totalTasks: nat, completedTasks: nat)

  /** The completion rate in percent; 0 without tasks. */
  function CompletionRate(s: Stats): int {
    if s.totalTasks > 0 then RoundDiv(100 * s.completedTasks, s.totalTasks) else 0
  }

  lemma MulMonotone(d: nat, low: int, high: int)
    requires low <= high
    ensures d * low <= d * high
    decreases high - low
  {
    if low < high {
      MulMonotone(d, low, high - 1);
      assert d * high == d * (high - 1) + d;
    }
  }

  /** A share of a whole rounds to a percentage. */
  lemma RateInRange(part: nat, whole: nat)
    requires part <= whole && whole > 0
    ensures 0 <= RoundDiv(100 * part, whole) <= 100
  {
    var r := RoundDiv(100 * part, whole);
    if r < 0 {
      MulMonotone(whole, r, -1);
    } else if r > 100 {
      MulMonotone(whole, 101, r);
    }
  }

  /**
   The rounded shares of a part and of the rest add up to 100, or to 101 exactly when the exact percentage
   ends in one half.
   */
  lemma SharesAddUp(part: nat, whole: nat)
    requires part <= whole && whole > 0
    ensures RoundDiv(100 * part, whole) + RoundDiv(100 * (whole - part), whole) ==
            if 2 * (100 * part % whole) == whole then 101 else 100
  {
    var q, m := 100 * part / whole, 100 * part % whole;
    assert 100 * part == whole * q + m;
    if 2 * m < whole {
      RoundDivUnique(100 * part, whole, q);
      assert 100 * (whole - part) == whole * (100 - q) - m;
      RoundDivUnique(100 * (whole - part), whole, 100 - q);
    } else {
      assert whole * (q + 1) == whole * q + whole;
      RoundDivUnique(100 * part, whole, q + 1);
      if 2 * m == whole {
        assert 100 * (whole - part) == whole * (100 - q) - m;
        RoundDivUnique(100 * (whole - part), whole, 100 - q);
      } else {
        assert 100 * (whole - part) == whole * (99 - q) + (whole - m);
        RoundDivUnique(100 * (whole - part), whole, 99 - q);
      }
    }
  }

  predicate IsActive(t: TaskStatus) {
    t in {InProgress, ReadyToTest, TestingInProgress, OnHold, FailedTest}
  }

  /** The dashboard's buckets cover every task once. */
  lemma {:induction false} BucketsCover(tasks: seq<TaskStatus>)
    ensures Count(tasks, (t: TaskStatus) => IsActive(t)) + Count(tasks, (t: TaskStatus) => IsDone(t)) +
            Count(tasks, (t: TaskStatus) => t == NotStarted) == |tasks|
  {
    if tasks != [] {
      var front := tasks[..|tasks| - 1];
      BucketsCover(front);
      CountSame(front, (t: TaskStatus) => IsActive(t), (t: TaskStatus) => IsActive(t));
      CountSame(front, (t: TaskStatus) => IsDone(t), (t: TaskStatus) => IsDone(t));
      CountSame(front, (t: TaskStatus) => t == NotStarted, (t: TaskStatus) => t == NotStarted);
    }
  }

  datatype Dashboard = Dashboard(total: nat, active: nat, completed: nat, open: nat,
                                 completionRate: int, workloadUtilization: int)

  /** The task dashboard of one staff member. */
  function StaffDashboard(tasks: seq<TaskStatus>): Dashboard {
    var active := Count(tasks, (t: TaskStatus) => IsActive(t));
    var completed := Count(tasks, (t: TaskStatus) => IsDone(t));
    var open := Count(tasks, (t: TaskStatus) => t == NotStarted);
    var total := |tasks|;
    var utilization := if total > 0 then RoundDiv(100 * (active + open), total) else 0;
    Dashboard(total, active, completed, open,
              if total > 0 then RoundDiv(100 * completed, total) else 0,
              if utilization > 100 then 100 else utilization)
  }

  /** The buckets add up to the tasks; the two rates add up to 100, or to 101 on an exact half. */
  lemma DashboardAddsUp(tasks: seq<TaskStatus>)
    requires tasks != []
    ensures var d := StaffDashboard(tasks);
            && d.active + d.completed + d.open == d.total
            && d.completionRate + d.workloadUtilization ==
              if 2 * (100 * d.completed % d.total) == d.total then 101 else 100
  {
    BucketsCover(tasks);
    var d := StaffDashboard(tasks);
    RateInRange(d.active + d.open, d.total);
    SharesAddUp(d.completed, d.total);
  }

  // ----- Task counts per staff member -------------------------------------------------------------------

  datatype TaskAssignment = TaskAssignment(staff: Option<nat>, task: Option<TaskStatus>)

  predicate IsTaskOf(a: TaskAssignment, id: nat) {
    a.staff == Some(id) && id != 0 && a.task.Some?
  }

  function StatsOf(assignments: seq<TaskAssignment>, id: nat): Stats {
    Stats(Count(assignments, (a: TaskAssignment) => IsTaskOf(a, id)),
          Count(assignments, (a: TaskAssignment) => IsTaskOf(a, id) && IsDone(a.task.value)))
  }

  lemma StatsAppend(assignments: seq<TaskAssignment>, a: TaskAssignment, id: nat)
    ensures StatsOf(assignments + [a], id) ==
            var before := StatsOf(assignments, id);
            if !IsTaskOf(a, id) then before
            else Stats(before.totalTasks + 1, before.completedTasks + if IsDone(a.task.value) then 1 else 0)
  {
    CountAppend(assignments, a, (x: TaskAssignment) => IsTaskOf(x, id));
    CountAppend(assignments, a, (x: TaskAssignment) => IsTaskOf(x, id) && IsDone(x.task.value));
  }

  lemma {:induction false} StatsOrdered(assignments: seq<TaskAssignment>, id: nat)
    ensures StatsOf(assignments, id).completedTasks <= StatsOf(assignments, id).totalTasks
  {
    if assignments != [] {
      var last := |assignments| - 1;
      StatsOrdered(assignments[..last], id);
      StatsAppend(assignments[..last], assignments[last], id);
      assert assignments == assignments[..last] + [assignments[last]];
    }
  }

  /** Counts every listed staff member's tasks in one pass over the assignments. */
  method CountTasks(staffIds: seq<nat>, assignments: seq<TaskAssignment>) returns (staffMap: map<nat, Stats>)
    ensures forall id :: id in staffMap <==> id in staffIds
    ensures forall id | id in staffMap :: staffMap[id] == StatsOf(assignments, id)
  {
    staffMap := map id | id in staffIds :: Stats(0, 0);
    for i := 0 to |assignments|
      invariant forall id :: id in staffMap <==> id in staffIds
      invariant forall id | id in staffMap :: staffMap[id] == StatsOf(assignments[..i], id)
    {
      var a := assignments[i];
      assert assignments[..i + 1] == assignments[..i] + [a];
      forall id | id in staffMap ensures StatsOf(assignments[..i + 1], id) ==
          if !IsTaskOf(a, id) then staffMap[id]
          else Stats(staffMap[id].totalTasks + 1, staffMap[id].completedTasks + if IsDone(a.task.value) then 1 else 0)
      {
        StatsAppend(assignments[..i], a, id);
      }
      if a.staff.Some? && a.staff.value != 0 && a.task.Some? && a.staff.value in staffMap {
        var record := staffMap[a.staff.value];
        record := record.(totalTasks := record.totalTasks + 1);
        if IsDone(a.task.value) {
          record := record.(completedTasks := record.completedTasks + 1);
        }
        staffMap := staffMap[a.staff.value := record];
      }
    }
    assert assignments[..|assignments|] == assignments;
  }

  // ----- Ranges -----------------------------------------------------------------------------------------

  datatype Range = Low | Middle | High | Top

  function Bounds(range: Range): (int, int) {
    match range
    case Low => (0, 25)
    case Middle => (26, 50)
    case High => (51, 75)
    case Top => (76, 100)
  }

  predicate InRange(assignments: seq<TaskAssignment>, id: nat, range: Range) {
    Bounds(range).0 <= CompletionRate(StatsOf(assignments, id)) <= Bounds(range).1
  }

  function Filtered(staffIds: seq<nat>, assignments: seq<TaskAssignment>, range: Range): seq<nat> {
    if staffIds == [] then []
    else
      var rest := Filtered(staffIds[..|staffIds| - 1], assignments, range);
      var last := staffIds[|staffIds| - 1];
      if InRange(assignments, last, range) then rest + [last] else rest
  }

  /** Every computed rate is an integer percentage, so it falls into exactly one range. */
  lemma OneRange(assignments: seq<TaskAssignment>, id: nat)
    ensures 0 <= CompletionRate(StatsOf(assignments, id)) <= 100
    ensures exists r :: InRange(assignments, id, r) && forall o :: InRange(assignments, id, o) ==> o == r
  {
    var s := StatsOf(assignments, id);
    StatsOrdered(assignments, id);
    if s.totalTasks > 0 {
      RateInRange(s.completedTasks, s.totalTasks);
    }
    var rate := CompletionRate(s);
    var r := if rate <= 25 then Low else if rate <= 50 then Middle else if rate <= 75 then High else Top;
    assert InRange(assignments, id, r);
  }

  /** The four ranges partition the directory: their totals add up to the unfiltered total. */
  lemma {:induction false} RangesPartition(staffIds: seq<nat>, assignments: seq<TaskAssignment>)
    ensures |Filtered(staffIds, assignments, Low)| + |Filtered(staffIds, assignments, Middle)| +
            |Filtered(staffIds, assignments, High)| + |Filtered(staffIds, assignments, Top)| == |staffIds|
  {
    if staffIds != [] {
      RangesPartition(staffIds[..|staffIds| - 1], assignments);
      OneRange(assignments, staffIds[|staffIds| - 1]);
    }
  }

  // ----- Pages ------------------------------------------------------------------------------------------

  function Clamp(i: int, length: nat): nat {
    if i < 0 then (if length + i < 0 then 0 else length + i) else if i > length then length else i
  }

  /** `slice(start, end)`: negative positions count from the end, and everything is clamped. */
  function Slice<T>(xs: seq<T>, start: int, end: int): seq<T> {
    var from, to := Clamp(start, |xs|), Clamp(end, |xs|);
    if from <= to then xs[from..to] else []
  }

  function Page<T>(xs: seq<T>, page: int, limit: int): seq<T> {
    Slice(xs, (page - 1) * limit, (page - 1) * limit + limit)
  }

  function TotalPages(total: nat, limit: nat): nat
    requires limit > 0
  {
    (total + limit - 1) / limit
  }

  /** Pages 1 to k, one after the other. */
  function Pages<T>(xs: seq<T>, limit: nat, k: nat): seq<T> {
    if k == 0 then [] else Pages(xs, limit, k - 1) + Page(xs, k, limit)
  }

  lemma {:induction false} PagesArePrefix<T>(xs: seq<T>, limit: nat, k: nat)
    requires limit > 0
    ensures Pages(xs, limit, k) == xs[..Clamp(k * limit, |xs|)]
  {
    if k != 0 {
      PagesArePrefix(xs, limit, k - 1);
      assert k * limit == (k - 1) * limit + limit;
      MulMonotone(limit, 0, k - 1);
      assert (k - 1) * limit >= 0;
    }
  }

  lemma EnoughPages(total: nat, limit: nat)
    requires limit > 0
    ensures total <= TotalPages(total, limit) * limit
  {
    var rest := (total + limit - 1) % limit;
    assert total + limit - 1 == limit * TotalPages(total, limit) + rest;
  }

  /** The pages of a list are the list, cut up: nothing is lost, repeated or reordered. */
  lemma PagesConcatenate<T>(xs: seq<T>, limit: nat)
    requires limit > 0
    ensures Pages(xs, limit, TotalPages(|xs|, limit)) == xs
  {
    PagesArePrefix(xs, limit, TotalPages(|xs|, limit));
    EnoughPages(|xs|, limit);
  }

  /** The filtered directory: one page of the staff in a range, and the number of staff in it. */
  method FilteredDirectory(staffIds: seq<nat>, assignments: seq<TaskAssignment>, range: Range, page: int, limit: int)
    returns (data: seq<nat>, total: nat)
    ensures total == |Filtered(staffIds, assignments, range)|
    ensures data == Page(Filtered(staffIds, assignments, range), page, limit)
  {
    var staffMap := CountTasks(staffIds, assignments);
    var filtered := [];
    for i := 0 to |staffIds|
      invariant filtered == Filtered(staffIds[..i], assignments, range)
    {
      assert staffIds[..i + 1][..i] == staffIds[..i];
      var rate := CompletionRate(staffMap[staffIds[i]]);
      if rate >= Bounds(range).0 && rate <= Bounds(range).1 {
        filtered := filtered + [staffIds[i]];
      }
    }
    assert staffIds[..|staffIds|] == staffIds;
    total := |filtered|;
    var start := (page - 1) * limit;
    data := Slice(filtered, start, start + limit);
  }
}
