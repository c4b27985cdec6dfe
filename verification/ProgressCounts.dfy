/** Project progress and the derived status from the number of tasks of each status. */
module ProgressCounts {
  import opened Common
  import opened Progress

  /** How many of the tasks have a status. */
  ghost function NumberOf(tasks: seq<TaskStatus>, status: TaskStatus): nat {
    |set i | 0 <= i < |tasks| && tasks[i] == status|
  }

  ghost function Finished(tasks: seq<TaskStatus>): nat {
    NumberOf(tasks, PassedTest) + NumberOf(tasks, DevCompleted) + NumberOf(tasks, Completed)
  }

  lemma NumberAppend(tasks: seq<TaskStatus>, status: TaskStatus)
    requires tasks != []
    ensures NumberOf(tasks, status) ==
            NumberOf(tasks[..|tasks| - 1], status) + if tasks[|tasks| - 1] == status then 1 else 0
  {
    var front, last := tasks[..|tasks| - 1], |tasks| - 1;
    var before := set i | 0 <= i < |front| && front[i] == status;
    assert (set i | 0 <= i < |tasks| && tasks[i] == status) ==
           if tasks[last] == status then before + {last} else before;
  }

  lemma NoneOfNone(tasks: seq<TaskStatus>)
    ensures tasks == [] ==> forall status :: NumberOf(tasks, status) == 0
  {
    forall status: TaskStatus ensures tasks == [] ==> NumberOf(tasks, status) == 0 {
      var positions := set i | 0 <= i < |tasks| && tasks[i] == status;
      assert tasks == [] ==> positions == {};
    }
  }

  /** The percentages the statuses stand for. */
  lemma {:induction false} SumByCounts(tasks: seq<TaskStatus>)
    ensures ProgressSum(tasks) ==
            25 * NumberOf(tasks, FailedTest) + 40 * NumberOf(tasks, OnHold) + 50 * NumberOf(tasks, InProgress) +
            75 * NumberOf(tasks, ReadyToTest) + 80 * NumberOf(tasks, TestingInProgress) + 100 * Finished(tasks)
  {
    NoneOfNone(tasks);
    if tasks != [] {
      SumByCounts(tasks[..|tasks| - 1]);
      forall status: TaskStatus ensures NumberOf(tasks, status) ==
          NumberOf(tasks[..|tasks| - 1], status) + if tasks[|tasks| - 1] == status then 1 else 0
      {
        NumberAppend(tasks, status);
      }
    }
  }

  /** The progress is within half a percent of the average, and the status follows from the exact average. */
  lemma StatusByAverage(tasks: seq<TaskStatus>)
    ensures var n, sum, p := |tasks|, ProgressSum(tasks), ProjectProgress(tasks);
            && (n == 0 ==> p == 0)
            && (n > 0 ==> 2 * (n * p) - n <= 2 * sum < 2 * (n * p) + n)
            && DerivedStatus(tasks) ==
              if n == 0 || 2 * sum < n then ProjectNotStarted
              else if 2 * sum < 149 * n then ProjectInProgress
              else if 2 * sum < 199 * n then ProjectTesting
              else ProjectCompleted
  {
    if |tasks| > 0 {
      ProgressInRange(tasks);
      ProgressAtLeast(tasks, 1);
      ProgressAtLeast(tasks, 75);
      ProgressAtLeast(tasks, 100);
    }
  }

  /** A project is completed when there are tasks and each is passed, completed in development, or completed. */
  lemma CompletedByCounts(tasks: seq<TaskStatus>)
    ensures IsProjectCompleted(tasks) <==> |tasks| > 0 && Finished(tasks) == |tasks|
    ensures Unfinished(tasks) == |tasks| - Finished(tasks)
  {
    UnfinishedIsRest(tasks);
    UnfinishedZero(tasks);
  }

  lemma {:induction false} UnfinishedIsRest(tasks: seq<TaskStatus>)
    ensures Unfinished(tasks) == |tasks| - Finished(tasks)
  {
    NoneOfNone(tasks);
    if tasks != [] {
      UnfinishedIsRest(tasks[..|tasks| - 1]);
      NumberAppend(tasks, PassedTest);
      NumberAppend(tasks, DevCompleted);
      NumberAppend(tasks, Completed);
    }
  }
}
