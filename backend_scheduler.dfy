/**
 * The scheduler of `backend/src/services/scheduler.js`. Its evaluator lives
 * in `backend/src/services/alertEvaluator.js`, which is not part of this
 * model: what one of its passes ends with is a parameter of each run.
 */
module BackendScheduler {
  import opened Wire
  import opened AlertEvaluator
  import opened Scheduling

  // `process.env.CRON_EXPRESSION` or the default: an absent or empty override gives the default.
  function CronExpressionFor(configured: Option<string>): (e: string)
    ensures TextFalsy(configured) ==> e == DefaultCronExpression
    ensures !TextFalsy(configured) ==> e == configured.value
    ensures e != ""
  {
    if TextFalsy(configured) then DefaultCronExpression else configured.value
  }

  class Scheduler {
    var isRunning: bool
    var cronJob: CronJob?
    const cronExpression: string
    /** Initial runs started by `startScheduler` whose ten-second timer has not fired yet. */
    var pendingInitialRuns: nat

    function View(): SchedulerView
      reads this, cronJob
    {
      SchedulerView(isRunning, cronJob != null, cronJob != null && cronJob.active, pendingInitialRuns)
    }

    ghost predicate Valid()
      reads this, cronJob
    {
      ViewValid(View())
    }

    constructor(configured: Option<string>)
      ensures Valid()
      ensures !isRunning && cronJob == null && pendingInitialRuns == 0
      ensures cronExpression == CronExpressionFor(configured)
    {
      isRunning := false;
      cronJob := null;
      cronExpression := CronExpressionFor(configured);
      pendingInitialRuns := 0;
    }

    /**
     * `startScheduler`: while running nothing changes; otherwise a fresh job
     * on the configured expression is created and started, and an initial
     * run is scheduled.
     */
    method StartScheduler()
      requires Valid()
      modifies this
      ensures Valid()
      ensures View() == StartStep(old(View()))
      ensures old(isRunning) ==> cronJob == old(cronJob)
      ensures !old(isRunning) ==> fresh(cronJob) && cronJob.expression == cronExpression
    {
      if isRunning {
        return;
      }
      var job := new CronJob(cronExpression);
      job.Start();
      cronJob := job;
      isRunning := true;
      pendingInitialRuns := pendingInitialRuns + 1;
    }

    /** `stopScheduler`: acts only when a job exists; the job is stopped and kept. */
    method StopScheduler()
      requires Valid()
      modifies this, cronJob
      ensures Valid()
      ensures View() == StopStep(old(View()))
      ensures cronJob == old(cronJob)
    {
      if cronJob != null {
        cronJob.Stop();
        isRunning := false;
      }
    }

    /** `runAlertEvaluation`: the pass's failure is caught and reported, never thrown. */
    method RunAlertEvaluation(pass: PassResult) returns (report: RunReport)
      ensures report == Summarize(pass)
    {
      report := Summarize(pass);
    }

    /** A firing of the cron job: a run while the job is active, nothing otherwise. */
    method CronFires(pass: PassResult) returns (report: Option<RunReport>)
      requires Valid()
      ensures report.Some? <==> isRunning
      ensures report.Some? ==> report.value == Summarize(pass)
    {
      if cronJob != null && cronJob.active {
        var r := RunAlertEvaluation(pass);
        report := Some(r);
      } else {
        report := None;
      }
    }

    /** The ten-second timer of a start fires: it runs even if the scheduler was stopped since. */
    method InitialTimerFires(pass: PassResult) returns (report: RunReport)
      requires Valid() && pendingInitialRuns > 0
      modifies this
      ensures Valid()
      ensures report == Summarize(pass)
      ensures View() == old(View()).(pendingInitialRuns := old(pendingInitialRuns) - 1)
    {
      pendingInitialRuns := pendingInitialRuns - 1;
      report := RunAlertEvaluation(pass);
    }

    /** `getStatus`, given the job's next firing time. */
    function GetStatus(nextFiring: int): (s: StatusView)
      reads this, cronJob
      ensures s.isRunning == isRunning
      ensures s.nextRun.Some? <==> cronJob != null
      ensures s.lastRun == None
    {
      StatusOf(View(), nextFiring)
    }
  }
}
