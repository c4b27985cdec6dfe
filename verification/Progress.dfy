/** Task statuses, rounded project progress and the status derived from it. */
module Progress {
  import opened Common

  datatype TaskStatus =
    | NotStarted
    | InProgress
    | ReadyToTest
    | TestingInProgress
    | OnHold
    | FailedTest
    | PassedTest
    | DevCompleted
    | Completed

  datatype ProjectStatus = ProjectNotStarted | ProjectInProgress | ProjectTesting | ProjectCompleted

  /** The progress in percent a status stands for. */
  function ProgressOf(status: TaskStatus): nat {
    match status
    case NotStarted => 0
    case InProgress => 50
    case ReadyToTest => 75
    case TestingInProgress => 80
    case FailedTest => 25
    case OnHold => 40
    case PassedTest => 100
    case DevCompleted => 100
    case Completed => 100
  }

  /** The statuses the completion service accepts. */
  predicate IsDone(status: TaskStatus) {
    status in {PassedTest, DevCompleted, Completed}
  }

  /** `isProjectCompleted`: a project without tasks is not completed. */
  predicate IsProjectCompleted(tasks: seq<TaskStatus>) {
    |tasks| != 0 && forall t | t in tasks :: IsDone(t)
  }

  function ProgressSum(tasks: seq<TaskStatus>): nat {
    if tasks == [] then 0 else ProgressSum(tasks[..|tasks| - 1]) + ProgressOf(tasks[|tasks| - 1])
  }

  function ProjectProgress(tasks: seq<TaskStatus>): int {
    if |tasks| > 0 then RoundDiv(ProgressSum(tasks), |tasks|) else 0
  }

  function DerivedStatus(tasks: seq<TaskStatus>): ProjectStatus {
    var progress := ProjectProgress(tasks);
    if progress == 0 then ProjectNotStarted
    else if progress < 75 then ProjectInProgress
    else if progress < 100 then ProjectTesting
    else ProjectCompleted
  }

  function Unfinished(tasks: seq<TaskStatus>): nat {
    Count(tasks, (t: TaskStatus) => !IsDone(t))
  }

  /** What the tasks lack to full progress, added up. */
  function Shortfall(tasks: seq<TaskStatus>): int {
    100 * |tasks| - ProgressSum(tasks)
  }

  /** An unfinished task lacks at least 20, a finished one nothing. */
  lemma {:induction false} ShortfallBounds(tasks: seq<TaskStatus>)
    ensures 20 * Unfinished(tasks) <= Shortfall(tasks) <= 100 * Unfinished(tasks)
  {
    if tasks != [] {
      ShortfallBounds(tasks[..|tasks| - 1]);
    }
  }

  lemma {:induction false} UnfinishedZero(tasks: seq<TaskStatus>)
    ensures Unfinished(tasks) == 0 <==> forall t | t in tasks :: IsDone(t)
  {
    if tasks != [] {
      var last := |tasks| - 1;
      UnfinishedZero(tasks[..last]);
      assert forall t :: t in tasks <==> t in tasks[..last] || t == tasks[last];
    }
  }

  /** Rounded progress is at least r exactly when the exact average is at least r - 1/2. */
  lemma ProgressAtLeast(tasks: seq<TaskStatus>, r: int)
    requires |tasks| > 0
    ensures ProjectProgress(tasks) >= r <==> 2 * ProgressSum(tasks) >= 2 * (|tasks| * r) - |tasks|
  {
    var q, n := ProjectProgress(tasks), |tasks|;
    if q < r {
      MulGap(n, q, r);
    } else if q > r {
      MulGap(n, r, q);
    }
  }

  /** The derived status is COMPLETED exactly when the tasks lack at most half a percent on average. */
  lemma CompletedExactly(tasks: seq<TaskStatus>)
    ensures DerivedStatus(tasks) == ProjectCompleted <==> |tasks| > 0 && 2 * Shortfall(tasks) <= |tasks|
  {
    if |tasks| > 0 {
      ProgressAtLeast(tasks, 100);
    }
  }

  /** A project that shows as COMPLETED has at most one unfinished task in forty. */
  lemma CompletedBound(tasks: seq<TaskStatus>)
    requires DerivedStatus(tasks) == ProjectCompleted
    ensures 40 * Unfinished(tasks) <= |tasks|
  {
    CompletedExactly(tasks);
    ShortfallBounds(tasks);
  }

  /** Completed tasks always show; below forty tasks nothing else does. */
  lemma CompletedAgrees(tasks: seq<TaskStatus>)
    ensures IsProjectCompleted(tasks) ==> DerivedStatus(tasks) == ProjectCompleted
    ensures |tasks| < 40 ==> (DerivedStatus(tasks) == ProjectCompleted <==> IsProjectCompleted(tasks))
  {
    CompletedExactly(tasks);
    ShortfallBounds(tasks);
    UnfinishedZero(tasks);
  }

  function Repeat(status: TaskStatus, n: nat): seq<TaskStatus> {
    seq(n, _ => status)
  }

  lemma {:induction false} RepeatSum(status: TaskStatus, n: nat)
    ensures ProgressSum(Repeat(status, n)) == ProgressOf(status) * n
  {
    if n != 0 {
      RepeatSum(status, n - 1);
      assert Repeat(status, n)[..n - 1] == Repeat(status, n - 1);
    }
  }

  lemma SumAppend(tasks: seq<TaskStatus>, t: TaskStatus)
    ensures ProgressSum(tasks + [t]) == ProgressSum(tasks) + ProgressOf(t)
  {
    assert (tasks + [t])[..|tasks|] == tasks;
  }

  /** Forty is tight: from forty tasks on, one task still in testing does not show. */
  lemma FortyIsTight(n: nat)
    requires n >= 40
    ensures var tasks := Repeat(Completed, n - 1) + [TestingInProgress];
            |tasks| == n && DerivedStatus(tasks) == ProjectCompleted && !IsProjectCompleted(tasks)
  {
    var tasks := Repeat(Completed, n - 1) + [TestingInProgress];
    RepeatSum(Completed, n - 1);
    SumAppend(Repeat(Completed, n - 1), TestingInProgress);
    CompletedExactly(tasks);
    assert tasks[n - 1] in tasks;
  }

  /** The derived status is NOT_STARTED exactly when the exact average is below one half. */
  lemma NotStartedExactly(tasks: seq<TaskStatus>)
    ensures DerivedStatus(tasks) == ProjectNotStarted <==> |tasks| == 0 || 2 * ProgressSum(tasks) < |tasks|
  {
    if |tasks| > 0 {
      ProgressAtLeast(tasks, 1);
      ProgressAtLeast(tasks, 0);
    }
  }

  lemma {:induction false} SumOfStarted(tasks: seq<TaskStatus>)
    ensures (exists t :: t in tasks && t != NotStarted) ==> ProgressSum(tasks) >= 25
  {
    if tasks != [] {
      var last := |tasks| - 1;
      SumOfStarted(tasks[..last]);
      assert forall t :: t in tasks <==> t in tasks[..last] || t == tasks[last];
    }
  }

  /** Up to fifty tasks, NOT_STARTED means that no task has started. */
  lemma NotStartedAgrees(tasks: seq<TaskStatus>)
    requires |tasks| <= 50 && DerivedStatus(tasks) == ProjectNotStarted
    ensures forall t | t in tasks :: t == NotStarted
  {
    NotStartedExactly(tasks);
    SumOfStarted(tasks);
  }

  /** Fifty is tight: with more tasks one that failed its test does not show. */
  lemma FiftyIsTight(n: nat)
    requires n > 50
    ensures var tasks := Repeat(NotStarted, n - 1) + [FailedTest];
            |tasks| == n && DerivedStatus(tasks) == ProjectNotStarted && FailedTest in tasks
  {
    var tasks := Repeat(NotStarted, n - 1) + [FailedTest];
    RepeatSum(NotStarted, n - 1);
    SumAppend(Repeat(NotStarted, n - 1), FailedTest);
    NotStartedExactly(tasks);
    assert tasks[n - 1] in tasks;
  }

  lemma {:induction false} SumUpdate(tasks: seq<TaskStatus>, i: nat, t: TaskStatus)
    requires i < |tasks|
    ensures ProgressSum(tasks[i := t]) == ProgressSum(tasks) - ProgressOf(tasks[i]) + ProgressOf(t)
  {
    var last := |tasks| - 1;
    if i < last {
      SumUpdate(tasks[..last], i, t);
      assert tasks[i := t][..last] == tasks[..last][i := t];
    } else {
      assert tasks[i := t][..last] == tasks[..last];
    }
  }

  /** Raising one task never lowers the project. */
  lemma ProgressMonotone(tasks: seq<TaskStatus>, i: nat, t: TaskStatus)
    requires i < |tasks| && ProgressOf(tasks[i]) <= ProgressOf(t)
    ensures ProjectProgress(tasks) <= ProjectProgress(tasks[i := t])
  {
    SumUpdate(tasks, i, t);
    ProgressAtLeast(tasks, ProjectProgress(tasks));
    ProgressAtLeast(tasks[i := t], ProjectProgress(tasks));
  }

  /** Progress is a percentage. */
  lemma ProgressInRange(tasks: seq<TaskStatus>)
    ensures 0 <= ProjectProgress(tasks) <= 100
  {
    if |tasks| > 0 {
      ShortfallBounds(tasks);
      ProgressAtLeast(tasks, 0);
      ProgressAtLeast(tasks, 101);
    }
  }

  /** The progress of one project, as `findOne` and the listing compute it. */
  method ComputeProgress(tasks: seq<TaskStatus>) returns (projectProgress: int, derivedStatus: ProjectStatus)
    ensures projectProgress == ProjectProgress(tasks) && derivedStatus == DerivedStatus(tasks)
    ensures 0 <= projectProgress <= 100
  {
    var totalTasks := |tasks|;
    var progressSum := 0;
    for i := 0 to |tasks|
      invariant progressSum == ProgressSum(tasks[..i])
    {
      assert tasks[..i + 1][..i] == tasks[..i];
      progressSum := progressSum + ProgressOf(tasks[i]);
    }
    assert tasks[..|tasks|] == tasks;
    projectProgress := if totalTasks > 0 then RoundDiv(progressSum, totalTasks) else 0;
    ProgressInRange(tasks);
    if projectProgress == 0 {
      derivedStatus := ProjectNotStarted;
    } else if projectProgress < 75 {
      derivedStatus := ProjectInProgress;
    } else if projectProgress < 100 {
      derivedStatus := ProjectTesting;
    } else {
      derivedStatus := ProjectCompleted;
    }
  }

  /** The project statistics: every project is counted once, by its derived status. */
  method GetProjectStats(projects: seq<seq<TaskStatus>>)
    returns (total: nat, active: nat, completed: nat, planning: nat)
    ensures total == |projects| && active + completed + planning == total
    ensures planning == Count(projects, (p: seq<TaskStatus>) => DerivedStatus(p) == ProjectNotStarted)
    ensures completed == Count(projects, (p: seq<TaskStatus>) => DerivedStatus(p) == ProjectCompleted)
  {
    total, active, completed, planning := |projects|, 0, 0, 0;
    for i := 0 to |projects|
      invariant active + completed + planning == i
      invariant planning == Count(projects[..i], (p: seq<TaskStatus>) => DerivedStatus(p) == ProjectNotStarted)
      invariant completed == Count(projects[..i], (p: seq<TaskStatus>) => DerivedStatus(p) == ProjectCompleted)
    {
      assert projects[..i + 1][..i] == projects[..i];
      var projectProgress, derivedStatus := ComputeProgress(projects[i]);
      if projectProgress == 0 {
        planning := planning + 1;
      } else if projectProgress < 100 {
        active := active + 1;
      } else {
        completed := completed + 1;
      }
    }
    assert projects[..|projects|] == projects;
  }
}
