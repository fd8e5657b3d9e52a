/**
 * The evaluator of `src/services/alertEvaluator.js` run against the
 * backend of `backend/src/server.js`: the alerts it evaluates are the rows
 * of `GET /api/alerts`, and its status writes go through the checks of
 * `PUT /api/alerts/:id/status`.
 */
module Integration {
  import opened Wire
  import opened AlertTables
  import opened RequestChecks
  import opened AlertStore
  import opened AlertEvaluator

  /** An alert of the listing as the evaluator reads it. */
  function EvaluatorAlert(x: ListedAlert): (a: Alert)
    ensures a.id == x.alert.id && a.operator == x.alert.operator && a.parameter == x.alert.parameter
    ensures a.lat == x.alert.lat && a.lon == x.alert.lon && a.threshold == x.alert.threshold
  {
    Alert(x.alert.id, x.alert.lat, x.alert.lon, x.alert.parameter, x.alert.operator, x.alert.threshold)
  }

  /** The alert list the evaluator fetches from `GET /api/alerts`. */
  function ListedAlerts(rows: seq<ListedAlert>): (r: seq<Alert>)
    ensures |r| == |rows|
    ensures forall i :: 0 <= i < |rows| ==> r[i] == EvaluatorAlert(rows[i])
  {
    if rows == [] then [] else [EvaluatorAlert(rows[0])] + ListedAlerts(rows[1..])
  }

  /** The backend's answer to each status write of a pass: accepted when its checks pass, all stamped `stamp`. */
  function BackendAccepts(alerts: seq<AlertRow>, stamp: int): Answers
  {
    (k: nat, req: StatusRequest) => DecideStatusWrite(alerts, req, Some(stamp)).Ok?
  }

  /**
   * A status write as the evaluator sends it is refused with 400: with a
   * positive id because `current_value` is missing, otherwise because the id
   * is invalid.
   */
  lemma AsWrittenWriteRejected(alerts: seq<AlertRow>, o: Outcome, stamp: int)
    requires o.Evaluated?
    ensures DecideStatusWrite(alerts, StatusRequestFor(o), Some(stamp)).Err?
    ensures HttpStatus(DecideStatusWrite(alerts, StatusRequestFor(o), Some(stamp)).error) == 400
    ensures o.alertId > 0 ==> DecideStatusWrite(alerts, StatusRequestFor(o), Some(stamp)) == Err(BadCurrentValue)
  {
    assert HttpStatus(BadCurrentValue) == HttpStatus(InvalidAlertId) == 400;
    AlertIdText(o.alertId);
  }

  /**
   * Against the backend, a pass in which any alert could be evaluated
   * throws: the write of that alert is refused, so `Promise.all` rejects.
   */
  lemma AsWrittenPassThrows(table: seq<AlertRow>, alerts: seq<Alert>, weather: Weather, stamp: int, i: nat)
    requires i < |alerts| && EvaluateSingleAlert(alerts[i], ReplyFor(alerts, weather, i)).Ok?
    ensures EvaluationPass(Fetched(alerts), weather, BackendAccepts(table, stamp)).0 == Threw(StatusWriteFailed)
  {
    var os := Outcomes(alerts, weather);
    assert os[i] == OutcomeOf(alerts[i], ReplyFor(alerts, weather, i));
    EverySuccessWritten(os);
    AsWrittenWriteRejected(table, os[i], stamp);
    var writes := StatusWrites(os);
    assert StatusRequestFor(os[i]) in writes;
    var k :| 0 <= k < |writes| && writes[k] == StatusRequestFor(os[i]);
    assert !BackendAccepts(table, stamp)(k, writes[k]);
  }

  /** The status write with `current_value` for an alert that is stored is accepted and appends its row. */
  lemma CorrectedWriteAccepted(alerts: seq<AlertRow>, o: Outcome, stamp: int)
    requires o.Evaluated? && o.alertId > 0 && HasAlert(alerts, o.alertId)
    ensures DecideStatusWrite(alerts, CorrectedStatusRequestFor(o), Some(stamp))
      == Ok(StatusRow(o.alertId, o.isTriggered, stamp, o.currentValue))
  {
    AlertIdText(o.alertId);
  }

  /**
   * Evaluating the backend's own listing, every successful entry belongs to
   * a stored alert, so its corrected write is accepted, whatever the reply
   * to its request. The entry for row `i` is
   * `OutcomeOf(EvaluatorAlert(rows[i]), reply)` for that reply, by the
   * contracts of `Outcomes` and `ListedAlerts`.
   */
  lemma CorrectedPassWritesAccepted(table: seq<AlertRow>, statuses: seq<StatusRow>, reply: WeatherReply, stamp: int, i: nat)
    requires TablesValid(table, statuses)
    requires i < |AlertListing(table, statuses)|
    requires EvaluateSingleAlert(EvaluatorAlert(AlertListing(table, statuses)[i]), reply).Ok?
    ensures var o := OutcomeOf(EvaluatorAlert(AlertListing(table, statuses)[i]), reply);
      DecideStatusWrite(table, CorrectedStatusRequestFor(o), Some(stamp)) == Ok(StatusRow(o.alertId, o.isTriggered, stamp, o.currentValue))
  {
    var rows := AlertListing(table, statuses);
    var o := OutcomeOf(EvaluatorAlert(rows[i]), reply);
    assert rows[i] in rows;
    var a := rows[i].alert;
    var k :| 0 <= k < |table| && table[k] == a;
    assert o.alertId == a.id;
    CorrectedWriteAccepted(table, o, stamp);
  }

  /** The operator of a stored alert is one the evaluator knows, so no entry fails on it, whatever the reply. */
  lemma StoredOperatorsKnown(table: seq<AlertRow>, statuses: seq<StatusRow>, reply: WeatherReply, i: nat)
    requires TablesValid(table, statuses)
    requires i < |AlertListing(table, statuses)|
    ensures var o := OutcomeOf(EvaluatorAlert(AlertListing(table, statuses)[i]), reply);
      o.Failed? ==> !o.error.UnknownOperator?
  {
    var rows := AlertListing(table, statuses);
    assert rows[i] in rows;
    var a := rows[i].alert;
    var k :| 0 <= k < |table| && table[k] == a;
    KnownOperators(a.operator);
  }
}
