/**
 * What the two schedulers share: the cron job object they create, the
 * state machine of `startScheduler` and `stopScheduler` seen as a value,
 * the summary a run reports, and the status view of `getStatus`.
 *
 * Cron timing and `setTimeout` are not clocks here: a firing of the job or
 * of the initial timer is a method call, and the next firing time that
 * `getStatus` reports is a parameter.
 */
module Scheduling {
  import opened Wire
  import opened AlertEvaluator

  /** The default cron expression: every five minutes. */
  const DefaultCronExpression: string := "*/5 * * * *"

  /** A `node-cron` task: created stopped (`scheduled: false`), then started and stopped. */
  class CronJob {
    const expression: string
    var active: bool

    constructor(expression: string)
      ensures this.expression == expression && !active
    {
      this.expression := expression;
      active := false;
    }

    method Start()
      modifies this
      ensures active
    {
      active := true;
    }

    method Stop()
      modifies this
      ensures !active
    {
      active := false;
    }
  }

  // ---------------------------------------------------------------------------
  // The start/stop state machine as a value

  /**
   * The observable state of a scheduler: its `isRunning` flag, whether a job
   * exists and runs, and how many initial-run timers are still pending.
   */
  datatype SchedulerView = SchedulerView(isRunning: bool, hasJob: bool, jobActive: bool, pendingInitialRuns: nat)

  /** `isRunning` tells whether a job exists and is active. */
  predicate ViewValid(v: SchedulerView)
  {
    v.isRunning <==> (v.hasJob && v.jobActive)
  }

  /** `startScheduler`: nothing while running; otherwise a new active job and one more initial run. */
  function StartStep(v: SchedulerView): SchedulerView
  {
    if v.isRunning then v else SchedulerView(true, true, true, v.pendingInitialRuns + 1)
  }

  /** `stopScheduler`: nothing without a job; otherwise the job stays but stops. */
  function StopStep(v: SchedulerView): SchedulerView
  {
    if !v.hasJob then v else v.(isRunning := false, jobActive := false)
  }

  /** Both steps keep `isRunning` in step with the job. */
  lemma StepsKeepViewValid(v: SchedulerView)
    requires ViewValid(v)
    ensures ViewValid(StartStep(v)) && ViewValid(StopStep(v))
  {
  }

  /** Starting twice is starting once, and so is stopping twice. */
  lemma StepsIdempotent(v: SchedulerView)
    ensures StartStep(StartStep(v)) == StartStep(v)
    ensures StopStep(StopStep(v)) == StopStep(v)
  {
  }

  /** After a start, `isRunning` holds and a job exists; after a stop of a started scheduler, it no longer runs. */
  lemma StartThenStop(v: SchedulerView)
    requires ViewValid(v)
    ensures StartStep(v).isRunning && StartStep(v).hasJob
    ensures !StopStep(StartStep(v)).isRunning && StopStep(StartStep(v)).hasJob
    ensures StartStep(StopStep(StartStep(v))).pendingInitialRuns == StartStep(v).pendingInitialRuns + 1
  {
  }

  // ---------------------------------------------------------------------------
  // What a run reports

  /** The outcome of `runAlertEvaluation`: the caught failure, no summary, or the triggered count. */
  datatype RunReport = EvaluationFailed(error: PassError) | NoSummary | Summary(triggered: nat)

  predicate TriggeredSuccess(o: Outcome)
  {
    o.Evaluated? && o.isTriggered
  }

  /** `results.filter(r => r.success && r.isTriggered).length`. */
  function TriggeredCount(outcomes: seq<Outcome>): (n: nat)
    ensures n == |Positions(outcomes, TriggeredSuccess)|
  {
    CountWhereIsCardinality(outcomes, TriggeredSuccess);
    CountWhere(outcomes, TriggeredSuccess)
  }

  /** Only successful entries are counted: the count is at most the number of successes. */
  lemma {:induction false} TriggeredAmongSuccesses(outcomes: seq<Outcome>)
    ensures CountWhere(outcomes, TriggeredSuccess) <= CountWhere(outcomes, Succeeded) <= |outcomes|
  {
    if outcomes != [] {
      TriggeredAmongSuccesses(outcomes[..|outcomes| - 1]);
    }
  }

  /**
   * The body of `runAlertEvaluation` after the evaluator call: a thrown
   * error is caught, an absent result gives no summary, and a result gives
   * the number of triggered successes.
   */
  function Summarize(pass: PassResult): (r: RunReport)
    ensures pass.Threw? <==> r.EvaluationFailed?
    ensures pass.Threw? ==> r.error == pass.error
    ensures pass.ReturnedNothing? <==> r.NoSummary?
    ensures r.Summary? ==> (r.triggered == |Positions(pass.outcomes, TriggeredSuccess)|
      && r.triggered <= |Positions(pass.outcomes, Succeeded)| <= |pass.outcomes|)
  {
    match pass
    case Threw(e) => EvaluationFailed(e)
    case ReturnedNothing => NoSummary
    case Returned(outcomes) =>
      TriggeredAmongSuccesses(outcomes);
      CountWhereIsCardinality(outcomes, Succeeded);
      Summary(TriggeredCount(outcomes))
  }

  // ---------------------------------------------------------------------------
  // getStatus

  /** The reply of `getStatus`; times are abstract instants. */
  datatype StatusView = StatusView(isRunning: bool, nextRun: Option<int>, lastRun: Option<int>)

  /** `getStatus` on a view: `nextRun` only once a job exists, `lastRun` never (it is never assigned). */
  function StatusOf(v: SchedulerView, nextFiring: int): (s: StatusView)
    ensures s.isRunning == v.isRunning
    ensures s.nextRun.Some? <==> v.hasJob
    ensures s.nextRun.Some? ==> s.nextRun.value == nextFiring
    ensures s.lastRun == None
  {
    StatusView(v.isRunning, if v.hasJob then Some(nextFiring) else None, None)
  }

  /** Before the first start `nextRun` is null; after any start it never is again. */
  lemma NextRunOnceStarted(v: SchedulerView, nextFiring: int)
    requires ViewValid(v)
    ensures !v.hasJob ==> StatusOf(v, nextFiring).nextRun == None
    ensures StatusOf(StartStep(v), nextFiring).nextRun == Some(nextFiring)
    ensures StatusOf(StopStep(StartStep(v)), nextFiring).nextRun == Some(nextFiring)
  {
  }
}
