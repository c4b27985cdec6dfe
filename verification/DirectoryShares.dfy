/** The directory's ranges and pages, and the dashboard, by the tasks of the staff. */
module DirectoryShares {
  import opened Common
  import opened Progress
  import opened Directory

  // ----- The tasks of one staff member --------------------------------------------------------------------

  /** The assignments of a staff member that have a task. */
  ghost function TasksOf(assignments: seq<TaskAssignment>, id: nat): set<int> {
    set i | 0 <= i < |assignments| && assignments[i].staff == Some(id) && assignments[i].task.Some?
  }

  ghost function FinishedOf(assignments: seq<TaskAssignment>, id: nat): set<int> {
    set i | i in TasksOf(assignments, id) && assignments[i].task.value in {PassedTest, DevCompleted, Completed}
  }

  /** The counts behind a rate are those of the tasks and of the finished ones; the id 0 is nobody's. */
  lemma StatsAreSizes(assignments: seq<TaskAssignment>, id: nat)
    ensures var s := StatsOf(assignments, id);
            && s.totalTasks == (if id == 0 then 0 else |TasksOf(assignments, id)|)
            && s.completedTasks == (if id == 0 then 0 else |FinishedOf(assignments, id)|)
            && s.completedTasks <= s.totalTasks
  {
    StatsOrdered(assignments, id);
    CountIsSize(assignments, (a: TaskAssignment) => IsTaskOf(a, id),
                if id == 0 then {} else TasksOf(assignments, id));
    CountIsSize(assignments, (a: TaskAssignment) => IsTaskOf(a, id) && IsDone(a.task.value),
                if id == 0 then {} else FinishedOf(assignments, id));
  }

  // ----- Rates --------------------------------------------------------------------------------------------

  /** The rate times the tasks is within half the tasks of a hundred times the completed ones. */
  lemma RateIsShare(s: Stats)
    requires s.completedTasks <= s.totalTasks
    ensures var rate := CompletionRate(s);
            && 0 <= rate <= 100
            && (s.totalTasks > 0 ==>
                  2 * (s.totalTasks * rate) - s.totalTasks <= 200 * s.completedTasks <
                  2 * (s.totalTasks * rate) + s.totalTasks)
            && (s.completedTasks == 0 ==> rate == 0)
            && (0 < s.totalTasks == s.completedTasks ==> rate == 100)
  {
    if s.totalTasks > 0 {
      RateInRange(s.completedTasks, s.totalTasks);
      if s.completedTasks == 0 {
        RoundDivUnique(0, s.totalTasks, 0);
      }
      if s.completedTasks == s.totalTasks {
        RoundDivUnique(100 * s.completedTasks, s.totalTasks, 100);
      }
    }
  }

  /** Whoever completed more of as many tasks has no smaller a rate. */
  lemma RateGrows(total: nat, fewer: nat, more: nat)
    requires fewer <= more <= total
    ensures CompletionRate(Stats(total, fewer)) <= CompletionRate(Stats(total, more))
  {
    var low, high := CompletionRate(Stats(total, fewer)), CompletionRate(Stats(total, more));
    if total > 0 && high < low {
      MulGap(total, high, low);
    }
  }

  /** A rate is at least r if and only if the exact percentage is at least r - 1/2. */
  lemma RateAtLeast(s: Stats, r: int)
    requires s.totalTasks > 0
    ensures CompletionRate(s) >= r <==> 200 * s.completedTasks >= 2 * (s.totalTasks * r) - s.totalTasks
  {
    var rate := CompletionRate(s);
    if rate < r {
      MulGap(s.totalTasks, rate, r);
    } else if r < rate {
      MulGap(s.totalTasks, r, rate);
    }
  }

  // ----- Ranges by share ----------------------------------------------------------------------------------

  /** The range by the exact share of finished tasks: below 25.5, 50.5 or 75.5 percent, or from there on. */
  predicate ShareIn(total: nat, finished: nat, range: Range) {
    match range
    case Low => total == 0 || 200 * finished < 51 * total
    case Middle => total > 0 && 51 * total <= 200 * finished < 101 * total
    case High => total > 0 && 101 * total <= 200 * finished < 151 * total
    case Top => total > 0 && 151 * total <= 200 * finished
  }

  ghost predicate Belongs(assignments: seq<TaskAssignment>, id: nat, range: Range) {
    if id == 0 then range == Low
    else ShareIn(|TasksOf(assignments, id)|, |FinishedOf(assignments, id)|, range)
  }

  lemma RangeByShare(assignments: seq<TaskAssignment>, id: nat, range: Range)
    ensures InRange(assignments, id, range) <==> Belongs(assignments, id, range)
  {
    var s := StatsOf(assignments, id);
    StatsAreSizes(assignments, id);
    RateIsShare(s);
    if s.totalTasks > 0 {
      RateAtLeast(s, 26);
      RateAtLeast(s, 51);
      RateAtLeast(s, 76);
    }
  }

  lemma {:induction false} FilteredAppend(xs: seq<nat>, ys: seq<nat>, assignments: seq<TaskAssignment>, range: Range)
    ensures Filtered(xs + ys, assignments, range) ==
            Filtered(xs, assignments, range) + Filtered(ys, assignments, range)
  {
    if ys == [] {
      assert xs + ys == xs;
    } else {
      var last := |ys| - 1;
      FilteredAppend(xs, ys[..last], assignments, range);
      assert (xs + ys)[..|xs| + last] == xs + ys[..last] && (xs + ys)[|xs| + last] == ys[last];
    }
  }

  /** The filtered staff are those who belong to the range by their tasks, each as often as listed. */
  lemma {:induction false} FilteredByShare(staffIds: seq<nat>, assignments: seq<TaskAssignment>, range: Range, id: nat)
    ensures multiset(Filtered(staffIds, assignments, range))[id] ==
            if Belongs(assignments, id, range) then multiset(staffIds)[id] else 0
  {
    if staffIds != [] {
      var front, last := staffIds[..|staffIds| - 1], staffIds[|staffIds| - 1];
      FilteredByShare(front, assignments, range, id);
      RangeByShare(assignments, last, range);
      assert staffIds == front + [last];
    }
  }

  /** They keep their order: the staff of two lists together are those of the one followed by those of the other. */
  lemma FilteredInOrder(staffIds: seq<nat>, assignments: seq<TaskAssignment>, range: Range, k: nat)
    requires k <= |staffIds|
    ensures Filtered(staffIds, assignments, range) ==
            Filtered(staffIds[..k], assignments, range) + Filtered(staffIds[k..], assignments, range)
  {
    assert staffIds == staffIds[..k] + staffIds[k..];
    FilteredAppend(staffIds[..k], staffIds[k..], assignments, range);
  }

  // ----- Pages --------------------------------------------------------------------------------------------

  /** Page by page from the front; page 0 is empty, and negative pages count from the end. */
  lemma PageIs<T>(xs: seq<T>, page: int, limit: nat)
    ensures page >= 1 ==>
              var start := (page - 1) * limit;
              && start >= 0
              && |Page(xs, page, limit)| ==
                (if |xs| <= start then 0 else if |xs| < start + limit then |xs| - start else limit)
              && forall i | 0 <= i < |Page(xs, page, limit)| ::
                   start + i < |xs| && Page(xs, page, limit)[i] == xs[start + i]
    ensures page == 0 ==> Page(xs, page, limit) == []
    ensures page < 0 && limit > 0 ==>
              var end := |xs| - -page * limit;
              && (end <= 0 ==> Page(xs, page, limit) == [])
              && (end > 0 ==> Page(xs, page, limit) == xs[if end < limit then 0 else end - limit..end])
  {
    if page >= 1 {
      MulMonotone(limit, 0, page - 1);
      assert (page - 1) * limit == limit * (page - 1);
    } else if page < 0 {
      MulMonotone(limit, page, -1);
      assert (page - 1) * limit == page * limit - limit;
      assert page * limit == limit * page == -(-page * limit);
    }
  }

  /** Whoever is on a page is listed and belongs to its range. */
  lemma PageListsShare(staffIds: seq<nat>, assignments: seq<TaskAssignment>, range: Range,
                       page: int, limit: int, id: nat)
    requires id in Page(Filtered(staffIds, assignments, range), page, limit)
    ensures id in staffIds && Belongs(assignments, id, range)
  {
    FilteredByShare(staffIds, assignments, range, id);
    var filtered := Filtered(staffIds, assignments, range);
    assert id in filtered;
    assert id in multiset(filtered);
    assert id in multiset(staffIds);
  }

  /** As many pages as it takes. */
  lemma TotalPagesIsLeast(total: nat, limit: nat)
    requires limit > 0
    ensures total <= TotalPages(total, limit) * limit < total + limit
  {
    EnoughPages(total, limit);
    var rest := (total + limit - 1) % limit;
    assert total + limit - 1 == limit * TotalPages(total, limit) + rest;
  }

  // ----- The dashboard ------------------------------------------------------------------------------------

  /** What is under way, what is finished and what is open. */
  lemma DashboardBuckets(tasks: seq<TaskStatus>)
    ensures var d := StaffDashboard(tasks);
            && d.total == |tasks|
            && d.active == |set i | 0 <= i < |tasks| &&
                                    tasks[i] in {InProgress, ReadyToTest, TestingInProgress, OnHold, FailedTest}|
            && d.completed == |set i | 0 <= i < |tasks| && tasks[i] in {PassedTest, DevCompleted, Completed}|
            && d.open == |set i | 0 <= i < |tasks| && tasks[i] == NotStarted|
  {
    CountIsSize(tasks, (t: TaskStatus) => IsActive(t),
                set i | 0 <= i < |tasks| &&
                        tasks[i] in {InProgress, ReadyToTest, TestingInProgress, OnHold, FailedTest});
    CountIsSize(tasks, (t: TaskStatus) => IsDone(t),
                set i | 0 <= i < |tasks| && tasks[i] in {PassedTest, DevCompleted, Completed});
    CountIsSize(tasks, (t: TaskStatus) => t == NotStarted, set i | 0 <= i < |tasks| && tasks[i] == NotStarted);
  }

  /** The two rates are the shares of what is finished and of what is not, to the nearest percent. */
  lemma DashboardRates(tasks: seq<TaskStatus>)
    ensures var d := StaffDashboard(tasks);
            var n, done, work := d.total, d.total * d.completionRate, d.total * d.workloadUtilization;
            && (tasks == [] ==> d.completionRate == 0 && d.workloadUtilization == 0)
            && (tasks != [] ==> 2 * done - n <= 200 * d.completed < 2 * done + n)
            && (tasks != [] ==> 2 * work - n <= 200 * (d.active + d.open) < 2 * work + n)
  {
    BucketsCover(tasks);
    if tasks != [] {
      var d := StaffDashboard(tasks);
      RateInRange(d.active + d.open, d.total);
    }
  }
}
