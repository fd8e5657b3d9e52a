/**
 * The alert evaluation pass of `src/services/alertEvaluator.js`: fetch the
 * alert list, evaluate every alert against the weather at its location,
 * then write a status for every alert that could be evaluated.
 *
 * The weather provider, the alert list fetch and the status writes are
 * inputs: `weather` gives the provider's reply to each request of the pass,
 * `fetched` the reply of `GET /api/alerts`, and `put` whether the backend
 * accepted each status write of the pass.
 */
module AlertEvaluator {
  import opened Wire

  /** An alert as the evaluator reads it out of `GET /api/alerts`. */
  datatype Alert = Alert(id: int, lat: real, lon: real, parameter: string, operator: string, threshold: real)

  /** Why one alert could not be evaluated. */
  datatype EvalError =
    | WeatherError(message: string)
    | ParameterUnavailable(parameter: string)
    | UnknownOperator(operator: string)

  /**
   * One entry of `evaluationResults`: `Evaluated` is `success: true` with the
   * reading and the verdict, `Failed` is `success: false` with the error.
   */
  datatype Outcome =
    | Evaluated(alertId: int, isTriggered: bool, currentValue: real, weatherData: map<string, real>)
    | Failed(alertId: int, error: EvalError)

  /** The reply of the alert list fetch: the list, or the transport error's message. */
  datatype FetchReply = Fetched(alerts: seq<Alert>) | FetchFailed(message: string)

  /** What makes the whole pass throw. */
  datatype PassError = ListFailed(message: string) | StatusWriteFailed

  /** How `evaluateAllAlerts` ends: it throws, returns `undefined`, or returns the outcomes. */
  datatype PassResult = Threw(error: PassError) | ReturnedNothing | Returned(outcomes: seq<Outcome>)

  // ---------------------------------------------------------------------------
  // evaluateCondition

  /** Where a reading lies relative to a threshold. */
  datatype Side = Below | Equal | Above

  function SideOf(v: real, t: real): Side
  {
    if v < t then Below else if v == t then Equal else Above
  }

  /** The operators of an alert, and the sides of the threshold on which each holds. */
  function Holds(op: string): (sides: Option<set<Side>>)
  {
    if op == ">" then Some({Above})
    else if op == "<" then Some({Below})
    else if op == ">=" then Some({Above, Equal})
    else if op == "<=" then Some({Below, Equal})
    else if op == "=" then Some({Equal})
    else None
  }

  /** `evaluateCondition`: the comparison the operator names; any other operator is an error. */
  function EvaluateCondition(currentValue: real, op: string, threshold: real): (r: Result<bool, EvalError>)
    ensures r.Ok? <==> Holds(op).Some?
    ensures r.Ok? ==> r.value == (SideOf(currentValue, threshold) in Holds(op).value)
    ensures r.Err? ==> r.error == UnknownOperator(op)
  {
    if op == ">" then Ok(currentValue > threshold)
    else if op == "<" then Ok(currentValue < threshold)
    else if op == ">=" then Ok(currentValue >= threshold)
    else if op == "<=" then Ok(currentValue <= threshold)
    else if op == "=" then Ok(currentValue == threshold)
    else Err(UnknownOperator(op))
  }

  /** The five operators are exactly the ones the backend stores. */
  lemma KnownOperators(op: string)
    ensures Holds(op).Some? <==> op in [">", "<", ">=", "<=", "="]
  {
  }

  /**
   * The operators relate as comparisons do: `>=` is `>` or `=`, `<=` and `<`
   * are the negations of `>` and `>=`, and exactly one of `<`, `=`, `>` holds.
   */
  lemma ConditionsRelate(v: real, t: real)
    ensures EvaluateCondition(v, ">=", t).value == (EvaluateCondition(v, ">", t).value || EvaluateCondition(v, "=", t).value)
    ensures EvaluateCondition(v, "<=", t).value == !EvaluateCondition(v, ">", t).value
    ensures EvaluateCondition(v, "<", t).value == !EvaluateCondition(v, ">=", t).value
    ensures (if EvaluateCondition(v, "<", t).value then 1 else 0) + (if EvaluateCondition(v, "=", t).value then 1 else 0)
      + (if EvaluateCondition(v, ">", t).value then 1 else 0) == 1
  {
  }

  /** `=` allows no tolerance: it holds for the threshold itself and for nothing else. */
  lemma EqualityIsExact(v: real, t: real)
    ensures EvaluateCondition(v, "=", t) == Ok(v == t)
    ensures v != t ==> EvaluateCondition(v, "=", t) == Ok(false)
  {
  }

  // ---------------------------------------------------------------------------
  // evaluateSingleAlert

  /**
   * `evaluateSingleAlert` given the provider's reply for the alert's location:
   * the provider's error, then a missing parameter, then an unknown operator.
   */
  function EvaluateSingleAlert(a: Alert, reply: WeatherReply): (r: Result<Outcome, EvalError>)
    ensures r.Ok? <==> reply.Sample? && a.parameter in reply.readings && Holds(a.operator).Some?
    ensures r.Ok? ==> (&& r.value.Evaluated? && r.value.alertId == a.id
      && r.value.currentValue == reply.readings[a.parameter]
      && r.value.weatherData == reply.readings
      && r.value.isTriggered == (SideOf(r.value.currentValue, a.threshold) in Holds(a.operator).value))
    ensures reply.WeatherFailed? ==> r == Err(WeatherError(reply.message))
    ensures reply.Sample? && a.parameter !in reply.readings ==> r == Err(ParameterUnavailable(a.parameter))
  {
    match reply
    case WeatherFailed(m) => Err(WeatherError(m))
    case Sample(readings) =>
      if a.parameter !in readings then Err(ParameterUnavailable(a.parameter))
      else
        var value := readings[a.parameter];
        match EvaluateCondition(value, a.operator, a.threshold)
        case Err(e) => Err(e)
        case Ok(triggered) => Ok(Evaluated(a.id, triggered, value, readings))
  }

  /** The entry the loop pushes for one alert, given the provider's reply: its result, or the caught error. */
  function OutcomeOf(a: Alert, reply: WeatherReply): (o: Outcome)
    ensures o.alertId == a.id
    ensures o.Evaluated? <==> EvaluateSingleAlert(a, reply).Ok?
    ensures o.Evaluated? ==> o == EvaluateSingleAlert(a, reply).value
    ensures o.Failed? ==> o.error == EvaluateSingleAlert(a, reply).error
  {
    match EvaluateSingleAlert(a, reply)
    case Ok(o) => o
    case Err(e) => Failed(a.id, e)
  }

  /** The provider's reply to the `i`-th request of the pass, the one for alert `i`. */
  function ReplyFor(alerts: seq<Alert>, weather: Weather, i: nat): WeatherReply
    requires i < |alerts|
  {
    weather(i, alerts[i].lat, alerts[i].lon)
  }

  // ---------------------------------------------------------------------------
  // evaluateAllAlerts and updateAlertStatuses

  /** `evaluationResults`: one entry per alert, in the order of the list, each from its own request. */
  function Outcomes(alerts: seq<Alert>, weather: Weather): (r: seq<Outcome>)
    ensures |r| == |alerts|
    ensures forall i :: 0 <= i < |alerts| ==> r[i] == OutcomeOf(alerts[i], ReplyFor(alerts, weather, i))
  {
    if alerts == [] then []
    else
      var n := |alerts| - 1;
      var init := Outcomes(alerts[..n], weather);
      assert forall i :: 0 <= i < n ==> ReplyFor(alerts[..n], weather, i) == ReplyFor(alerts, weather, i);
      init + [OutcomeOf(alerts[n], ReplyFor(alerts, weather, n))]
  }

  predicate Succeeded(o: Outcome)
  {
    o.Evaluated?
  }

  /**
   * The body of the status write for a successful outcome, as the evaluator
   * sends it: the id in the path and `is_triggered`; there is no `current_value`.
   */
  function StatusRequestFor(o: Outcome): (req: StatusRequest)
    requires o.Evaluated?
    ensures req.isTriggered == Bool(o.isTriggered) && req.currentValue == Undefined
  {
    StatusRequest(IntText(o.alertId), Bool(o.isTriggered), Undefined)
  }

  /** The status write with the `current_value` the backend requires. */
  function CorrectedStatusRequestFor(o: Outcome): (req: StatusRequest)
    requires o.Evaluated?
    ensures req.path == StatusRequestFor(o).path
    ensures req.isTriggered == Bool(o.isTriggered) && req.currentValue == Num(o.currentValue)
  {
    StatusRequestFor(o).(currentValue := Num(o.currentValue))
  }

  /** The path of a status write names the outcome's alert: parseInt reads the id back. */
  lemma StatusPathNamesAlert(o: Outcome)
    requires o.Evaluated?
    ensures ParseInt(StatusRequestFor(o).path) == Some(o.alertId)
    ensures ParseInt(CorrectedStatusRequestFor(o).path) == Some(o.alertId)
  {
    IntTextParses(o.alertId);
  }

  /** The number of entries of `xs` that satisfy `p`. */
  function CountWhere<T>(xs: seq<T>, p: T -> bool): nat
  {
    if xs == [] then 0 else CountWhere(xs[..|xs| - 1], p) + (if p(xs[|xs| - 1]) then 1 else 0)
  }

  /** The positions of `xs` at which `p` holds. */
  function Positions<T>(xs: seq<T>, p: T -> bool): set<int>
  {
    set i | 0 <= i < |xs| && p(xs[i])
  }

  /** `CountWhere` is the number of positions at which `p` holds. */
  lemma {:induction false} CountWhereIsCardinality<T>(xs: seq<T>, p: T -> bool)
    ensures CountWhere(xs, p) == |Positions(xs, p)|
  {
    if xs != [] {
      var n := |xs| - 1;
      var init := xs[..n];
      CountWhereIsCardinality(init, p);
      var before := Positions(init, p);
      var all := Positions(xs, p);
      if p(xs[n]) {
        assert all == before + {n};
      } else {
        assert all == before;
      }
    }
  }

  /** `updateAlertStatuses`: one write per successful outcome, in the order of the outcomes. */
  function StatusWrites(outcomes: seq<Outcome>): (writes: seq<StatusRequest>)
    ensures |writes| == CountWhere(outcomes, Succeeded)
  {
    if outcomes == [] then []
    else
      var n := |outcomes| - 1;
      StatusWrites(outcomes[..n]) + (if outcomes[n].Evaluated? then [StatusRequestFor(outcomes[n])] else [])
  }

  /** The write for a successful entry comes after the writes of the successes before it. */
  lemma {:induction false} StatusWritesInOrder(outcomes: seq<Outcome>, i: nat)
    requires i < |outcomes| && outcomes[i].Evaluated?
    ensures var k := CountWhere(outcomes[..i], Succeeded);
      k < |StatusWrites(outcomes)| && StatusWrites(outcomes)[k] == StatusRequestFor(outcomes[i])
    decreases |outcomes|
  {
    var n := |outcomes| - 1;
    var init := outcomes[..n];
    var rest := StatusWrites(init);
    assert StatusWrites(outcomes) == rest + (if outcomes[n].Evaluated? then [StatusRequestFor(outcomes[n])] else []);
    if i < n {
      assert init[..i] == outcomes[..i];
      assert init[i] == outcomes[i];
      StatusWritesInOrder(init, i);
    } else {
      assert outcomes[..i] == init;
    }
  }

  /** Every write is the write of some successful entry, namely the one counted at its position. */
  lemma {:induction false} WritesComeFromSuccesses(outcomes: seq<Outcome>, k: nat)
    requires k < |StatusWrites(outcomes)|
    ensures exists i :: (0 <= i < |outcomes| && outcomes[i].Evaluated?
      && CountWhere(outcomes[..i], Succeeded) == k && StatusWrites(outcomes)[k] == StatusRequestFor(outcomes[i]))
    decreases |outcomes|
  {
    var n := |outcomes| - 1;
    var init := outcomes[..n];
    var rest := StatusWrites(init);
    assert StatusWrites(outcomes) == rest + (if outcomes[n].Evaluated? then [StatusRequestFor(outcomes[n])] else []);
    if k < |rest| {
      WritesComeFromSuccesses(init, k);
      var i :| 0 <= i < |init| && init[i].Evaluated?
        && CountWhere(init[..i], Succeeded) == k && rest[k] == StatusRequestFor(init[i]);
      assert init[..i] == outcomes[..i];
      assert outcomes[i] == init[i];
    } else {
      assert outcomes[..n] == init;
      assert outcomes[n].Evaluated? && StatusWrites(outcomes)[k] == StatusRequestFor(outcomes[n]);
    }
  }

  /** The backend's answer to each status write of a pass: `put(k, w)` when the `k`-th write, `w`, is accepted. */
  type Answers = (nat, StatusRequest) -> bool

  /** Every write of the pass is accepted, so `Promise.all` resolves. */
  predicate AllAccepted(writes: seq<StatusRequest>, put: Answers)
  {
    forall k :: 0 <= k < |writes| ==> put(k, writes[k])
  }

  /** Issuing one more write keeps every write accepted exactly when that write is accepted. */
  lemma AllAcceptedSnoc(writes: seq<StatusRequest>, w: StatusRequest, put: Answers)
    ensures AllAccepted(writes + [w], put) <==> AllAccepted(writes, put) && put(|writes|, w)
  {
    var ws := writes + [w];
    assert forall k :: 0 <= k < |writes| ==> ws[k] == writes[k];
    assert ws[|writes|] == w;
  }

  /** The pass that `evaluateAllAlerts` performs, with the status writes it issues. */
  function EvaluationPass(fetched: FetchReply, weather: Weather, put: Answers)
    : (r: (PassResult, seq<StatusRequest>))
    ensures fetched.FetchFailed? ==> r == (Threw(ListFailed("Failed to fetch alerts: " + fetched.message)), [])
    ensures fetched == Fetched([]) ==> r == (ReturnedNothing, [])
    ensures fetched.Fetched? && fetched.alerts != [] ==> r.1 == StatusWrites(Outcomes(fetched.alerts, weather))
    ensures r.0.Returned? <==> (fetched.Fetched? && fetched.alerts != [] && AllAccepted(r.1, put))
    ensures r.0.Returned? ==> r.0.outcomes == Outcomes(fetched.alerts, weather)
    ensures r.0 == Threw(StatusWriteFailed) ==> exists k :: 0 <= k < |r.1| && !put(k, r.1[k])
    ensures fetched.Fetched? && fetched.alerts != [] && !AllAccepted(r.1, put) ==> r.0 == Threw(StatusWriteFailed)
  {
    match fetched
    case FetchFailed(m) => (Threw(ListFailed("Failed to fetch alerts: " + m)), [])
    case Fetched(alerts) =>
      if alerts == [] then (ReturnedNothing, [])
      else
        var outcomes := Outcomes(alerts, weather);
        var writes := StatusWrites(outcomes);
        if AllAccepted(writes, put) then (Returned(outcomes), writes) else (Threw(StatusWriteFailed), writes)
  }

  /**
   * `evaluateAllAlerts`: evaluate the alerts one after the other, catching
   * each alert's error into its entry, then issue the status writes of the
   * successful entries; a rejected write makes the pass throw.
   */
  method EvaluateAllAlerts(fetched: FetchReply, weather: Weather, put: Answers)
    returns (pass: PassResult, writes: seq<StatusRequest>)
    ensures (pass, writes) == EvaluationPass(fetched, weather, put)
  {
    if fetched.FetchFailed? {
      return Threw(ListFailed("Failed to fetch alerts: " + fetched.message)), [];
    }
    var alerts := fetched.alerts;
    if |alerts| == 0 {
      return ReturnedNothing, [];
    }
    var results: seq<Outcome> := [];
    for i := 0 to |alerts|
      invariant |results| == i
      invariant forall k :: 0 <= k < i ==> results[k] == OutcomeOf(alerts[k], ReplyFor(alerts, weather, k))
    {
      var result := EvaluateSingleAlert(alerts[i], weather(i, alerts[i].lat, alerts[i].lon));
      assert weather(i, alerts[i].lat, alerts[i].lon) == ReplyFor(alerts, weather, i);
      if result.Ok? {
        results := results + [result.value];
      } else {
        results := results + [Failed(alerts[i].id, result.error)];
      }
    }
    assert results == Outcomes(alerts, weather);
    var allAccepted;
    writes, allAccepted := UpdateAlertStatuses(results, put);
    if allAccepted {
      pass := Returned(results);
    } else {
      pass := Threw(StatusWriteFailed);
    }
  }

  /**
   * `updateAlertStatuses`: issue the write of each successful entry in turn;
   * `Promise.all` settles as accepted exactly when every write is.
   */
  method UpdateAlertStatuses(results: seq<Outcome>, put: Answers) returns (writes: seq<StatusRequest>, allAccepted: bool)
    ensures writes == StatusWrites(results)
    ensures allAccepted <==> AllAccepted(writes, put)
  {
    writes := [];
    allAccepted := true;
    for j := 0 to |results|
      invariant writes == StatusWrites(results[..j])
      invariant allAccepted <==> AllAccepted(writes, put)
    {
      assert results[..j + 1][..j] == results[..j];
      if results[j].Evaluated? {
        var request := StatusRequestFor(results[j]);
        AllAcceptedSnoc(writes, request, put);
        allAccepted := allAccepted && put(|writes|, request);
        writes := writes + [request];
      }
    }
    assert results[..|results|] == results;
  }

  // ---------------------------------------------------------------------------
  // Properties of the pass

  /** Exactly one entry per fetched alert, in list order, carrying that alert's id. */
  lemma OneOutcomePerAlert(alerts: seq<Alert>, weather: Weather, put: Answers)
    requires EvaluationPass(Fetched(alerts), weather, put).0.Returned?
    ensures var os := EvaluationPass(Fetched(alerts), weather, put).0.outcomes;
      |os| == |alerts| && forall i :: 0 <= i < |alerts| ==> os[i].alertId == alerts[i].id
  {
  }

  /**
   * An alert's entry depends only on the reply to its own request: two
   * passes whose providers give that request the same reply give the alert
   * the same entry, whatever the replies to the other requests, including
   * those for the same location.
   */
  lemma FailuresAreIsolated(alerts: seq<Alert>, weather: Weather, other: Weather, i: nat)
    requires i < |alerts|
    requires ReplyFor(alerts, weather, i) == ReplyFor(alerts, other, i)
    ensures Outcomes(alerts, weather)[i] == Outcomes(alerts, other)[i]
  {
    var a := alerts[i];
    assert EvaluateSingleAlert(a, ReplyFor(alerts, weather, i)) == EvaluateSingleAlert(a, ReplyFor(alerts, other, i));
  }

  /**
   * The writes are issued for exactly the successful entries: each success
   * has its write, each write belongs to a success, and their number is
   * the number of positions holding a successful entry.
   */
  lemma WritesForSuccessesOnly(outcomes: seq<Outcome>)
    ensures |StatusWrites(outcomes)| == |Positions(outcomes, Succeeded)|
    ensures forall i :: 0 <= i < |outcomes| && outcomes[i].Evaluated? ==> StatusRequestFor(outcomes[i]) in StatusWrites(outcomes)
    ensures forall w :: w in StatusWrites(outcomes) ==> exists i :: 0 <= i < |outcomes| && outcomes[i].Evaluated? && w == StatusRequestFor(outcomes[i])
  {
    CountWhereIsCardinality(outcomes, Succeeded);
    EverySuccessWritten(outcomes);
    EveryWriteFromSuccess(outcomes);
  }

  lemma EverySuccessWritten(outcomes: seq<Outcome>)
    ensures forall i :: 0 <= i < |outcomes| && outcomes[i].Evaluated? ==> StatusRequestFor(outcomes[i]) in StatusWrites(outcomes)
  {
    forall i | 0 <= i < |outcomes| && outcomes[i].Evaluated? ensures StatusRequestFor(outcomes[i]) in StatusWrites(outcomes) {
      StatusWritesInOrder(outcomes, i);
    }
  }

  lemma EveryWriteFromSuccess(outcomes: seq<Outcome>)
    ensures forall w :: w in StatusWrites(outcomes) ==> exists i :: 0 <= i < |outcomes| && outcomes[i].Evaluated? && w == StatusRequestFor(outcomes[i])
  {
    var writes := StatusWrites(outcomes);
    forall w | w in writes
      ensures exists i :: 0 <= i < |outcomes| && outcomes[i].Evaluated? && w == StatusRequestFor(outcomes[i])
    {
      var k :| 0 <= k < |writes| && writes[k] == w;
      WritesComeFromSuccesses(outcomes, k);
    }
  }

  /** Without a successful entry there is nothing to write. */
  lemma NoSuccessNoWrites(outcomes: seq<Outcome>)
    requires forall i :: 0 <= i < |outcomes| ==> outcomes[i].Failed?
    ensures StatusWrites(outcomes) == []
  {
    CountWhereIsCardinality(outcomes, Succeeded);
    assert Positions(outcomes, Succeeded) == {};
  }

  /** Every alert's evaluation fails on the reply to its own request. */
  predicate EveryAlertFails(alerts: seq<Alert>, weather: Weather)
  {
    forall i :: 0 <= i < |alerts| ==> EvaluateSingleAlert(alerts[i], ReplyFor(alerts, weather, i)).Err?
  }

  /** When every alert fails, the pass writes nothing and returns the failures. */
  lemma AllFailedWritesNothing(alerts: seq<Alert>, weather: Weather, put: Answers)
    requires alerts != []
    requires EveryAlertFails(alerts, weather)
    ensures EvaluationPass(Fetched(alerts), weather, put) == (Returned(Outcomes(alerts, weather)), [])
  {
    NoSuccessNoWrites(Outcomes(alerts, weather));
  }
}
