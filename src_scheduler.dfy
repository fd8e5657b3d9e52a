/**
 * The scheduler of `src/services/scheduler.js`: the same start/stop state
 * machine on a fixed expression, whose runs call the evaluation pass of
 * `src/services/alertEvaluator.js`.
 */
module SrcScheduler {
  import opened Wire
  import opened AlertEvaluator
  import opened Scheduling

  class Scheduler {
    var isRunning: bool
    var cronJob: CronJob?
    /** Initial runs started by `startScheduler` whose ten-second timer has not fired yet. */
    var pendingInitialRuns: nat

    function View(): SchedulerView
      reads this, cronJob
    {
      SchedulerView(isRunning, cronJob != null, cronJob != null && cronJob.active, pendingInitialRuns)
    }

    ghost predicate Valid()
      reads this, cronJob
    {
      ViewValid(View())
    }

    constructor()
      ensures Valid()
      ensures !isRunning && cronJob == null && pendingInitialRuns == 0
    {
      isRunning := false;
      cronJob := null;
      pendingInitialRuns := 0;
    }

    /**
     * `startScheduler`: while running nothing changes; otherwise a fresh job
     * every five minutes is created and started, and an initial run is scheduled.
     */
    method StartScheduler()
      requires Valid()
      modifies this
      ensures Valid()
      ensures View() == StartStep(old(View()))
      ensures old(isRunning) ==> cronJob == old(cronJob)
      ensures !old(isRunning) ==> fresh(cronJob) && cronJob.expression == DefaultCronExpression
    {
      if isRunning {
        return;
      }
      var job := new CronJob(DefaultCronExpression);
      job.Start();
      cronJob := job;
      isRunning := true;
      pendingInitialRuns := pendingInitialRuns + 1;
    }

    /** `stopScheduler`: acts only when a job exists; it clears `isRunning` and stops the job it keeps. */
    method StopScheduler()
      requires Valid()
      modifies this, cronJob
      ensures Valid()
      ensures View() == StopStep(old(View()))
      ensures cronJob == old(cronJob)
    {
      if cronJob != null {
        cronJob.Stop();
        isRunning := false;
      }
    }

    /**
     * `runAlertEvaluation`: one evaluation pass, whose failure is caught and
     * reported; `writes` are the status writes the pass issued.
     */
    method RunAlertEvaluation(fetched: FetchReply, weather: Weather, put: Answers)
      returns (report: RunReport, writes: seq<StatusRequest>)
      ensures report == Summarize(EvaluationPass(fetched, weather, put).0)
      ensures writes == EvaluationPass(fetched, weather, put).1
    {
      var pass;
      pass, writes := EvaluateAllAlerts(fetched, weather, put);
      report := Summarize(pass);
    }

    /** A firing of the cron job: a run while the job is active, nothing otherwise. */
    method CronFires(fetched: FetchReply, weather: Weather, put: Answers)
      returns (report: Option<RunReport>, writes: seq<StatusRequest>)
      requires Valid()
      ensures report.Some? <==> isRunning
      ensures report.Some? ==> (report.value == Summarize(EvaluationPass(fetched, weather, put).0)
        && writes == EvaluationPass(fetched, weather, put).1)
      ensures report.None? ==> writes == []
    {
      if cronJob != null && cronJob.active {
        var r;
        r, writes := RunAlertEvaluation(fetched, weather, put);
        report := Some(r);
      } else {
        report, writes := None, [];
      }
    }

    /** The ten-second timer of a start fires: it runs even if the scheduler was stopped since. */
    method InitialTimerFires(fetched: FetchReply, weather: Weather, put: Answers)
      returns (report: RunReport, writes: seq<StatusRequest>)
      requires Valid() && pendingInitialRuns > 0
      modifies this
      ensures Valid()
      ensures report == Summarize(EvaluationPass(fetched, weather, put).0)
      ensures writes == EvaluationPass(fetched, weather, put).1
      ensures View() == old(View()).(pendingInitialRuns := old(pendingInitialRuns) - 1)
    {
      pendingInitialRuns := pendingInitialRuns - 1;
      report, writes := RunAlertEvaluation(fetched, weather, put);
    }

    /** `getStatus`, given the job's next firing time. */
    function GetStatus(nextFiring: int): (s: StatusView)
      reads this, cronJob
      ensures s.isRunning == isRunning
      ensures s.nextRun.Some? <==> cronJob != null
      ensures s.lastRun == None
    {
      StatusOf(View(), nextFiring)
    }
  }
}
