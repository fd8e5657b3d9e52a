/**
 * The backend's two tables as one object whose handlers change them in
 * place: `POST /api/alerts` appends an alert, `DELETE /api/alerts/:id`
 * removes one together with its status rows, `PUT /api/alerts/:id/status`
 * appends a status row, and the two GET endpoints read them.
 */
module AlertStore {
  import opened Wire
  import opened Ordering
  import opened AlertTables
  import opened RequestChecks

  /** The ids handed out so far are all below the next AUTO_INCREMENT value. */
  ghost predicate IdsBelow(alerts: seq<AlertRow>, nextId: int)
  {
    forall i :: 0 <= i < |alerts| ==> alerts[i].id < nextId
  }

  ghost predicate StoreValid(alerts: seq<AlertRow>, statuses: seq<StatusRow>, nextId: int)
  {
    TablesValid(alerts, statuses) && IdsBelow(alerts, nextId) && nextId >= 1
  }

  /** An alert still present after rows are added keeps its witness. */
  lemma HasAlertAppended(alerts: seq<AlertRow>, extra: seq<AlertRow>, id: int)
    requires HasAlert(alerts, id)
    ensures HasAlert(alerts + extra, id)
  {
    var i :| 0 <= i < |alerts| && alerts[i].id == id;
    assert (alerts + extra)[i] == alerts[i];
  }

  /** A successful `POST /api/alerts` keeps the tables valid and raises the next id. */
  lemma CreateKeepsValid(alerts: seq<AlertRow>, statuses: seq<StatusRow>, nextId: int, body: NewAlertBody, now: int)
    requires StoreValid(alerts, statuses, nextId)
    requires DecideCreate(alerts, body, nextId, now).Ok?
    ensures StoreValid(alerts + [DecideCreate(alerts, body, nextId, now).value], statuses, nextId + 1)
    ensures |alerts + [DecideCreate(alerts, body, nextId, now).value]| <= MaxAlerts
  {
    var row := DecideCreate(alerts, body, nextId, now).value;
    var after := alerts + [row];
    CreatedRowAdmissible(alerts, body, nextId, now);
    forall i | 0 <= i < |after| ensures Admissible(after[i]) && after[i].id < nextId + 1 {
      if i < |alerts| {
        assert after[i] == alerts[i];
      }
    }
    forall i, j | 0 <= i < j < |after| ensures after[i].id != after[j].id {
      assert after[i] == alerts[i];
      if j == |alerts| {
        assert after[i].id < nextId == row.id;
      } else {
        assert after[j] == alerts[j];
      }
    }
    forall k | 0 <= k < |statuses| ensures HasAlert(after, statuses[k].alertId) {
      HasAlertAppended(alerts, [row], statuses[k].alertId);
    }
  }

  /** A successful `DELETE /api/alerts/:id` keeps the tables valid and frees one place. */
  lemma DeleteKeepsValid(alerts: seq<AlertRow>, statuses: seq<StatusRow>, nextId: int, path: string)
    requires StoreValid(alerts, statuses, nextId)
    requires DecideDelete(alerts, path).Ok?
    ensures var id := DecideDelete(alerts, path).value.id;
      && StoreValid(WithoutAlert(alerts, id), WithoutStatusesOf(statuses, id), nextId)
      && |WithoutAlert(alerts, id)| == |alerts| - 1
  {
    var id := DecideDelete(alerts, path).value.id;
    var remaining := WithoutAlert(alerts, id);
    var kept := WithoutStatusesOf(statuses, id);
    WithoutAlertUnique(alerts, id);
    WithoutAlertRemovesOne(alerts, id);
    forall i | 0 <= i < |remaining| ensures Admissible(remaining[i]) && remaining[i].id < nextId {
      assert remaining[i] in alerts;
    }
    forall k | 0 <= k < |kept| ensures HasAlert(remaining, kept[k].alertId) {
      var s := kept[k];
      assert s in statuses;
      var m :| 0 <= m < |statuses| && statuses[m] == s;
      var i :| 0 <= i < |alerts| && alerts[i].id == s.alertId;
      assert alerts[i] in remaining;
      var j :| 0 <= j < |remaining| && remaining[j] == alerts[i];
    }
  }

  /** A successful `PUT /api/alerts/:id/status` keeps the tables valid. */
  lemma StatusWriteKeepsValid(alerts: seq<AlertRow>, statuses: seq<StatusRow>, nextId: int, req: StatusRequest, stamp: Option<int>)
    requires StoreValid(alerts, statuses, nextId)
    requires DecideStatusWrite(alerts, req, stamp).Ok?
    ensures StoreValid(alerts, statuses + [DecideStatusWrite(alerts, req, stamp).value], nextId)
  {
    var after := statuses + [DecideStatusWrite(alerts, req, stamp).value];
    forall k | 0 <= k < |after| ensures HasAlert(alerts, after[k].alertId) {
      if k < |statuses| {
        assert after[k] == statuses[k];
      }
    }
  }

  /** A newly created alert has no status row yet, so it is listed with nulls. */
  lemma CreatedAlertListedUnchecked(alerts: seq<AlertRow>, statuses: seq<StatusRow>, nextId: int, body: NewAlertBody, now: int)
    requires StoreValid(alerts, statuses, nextId)
    requires DecideCreate(alerts, body, nextId, now).Ok?
    ensures var row := DecideCreate(alerts, body, nextId, now).value;
      ListedAlert(row, None) in AlertListing(alerts + [row], statuses)
  {
    var row := DecideCreate(alerts, body, nextId, now).value;
    forall s | s in statuses ensures s.alertId != row.id {
      var k :| 0 <= k < |statuses| && statuses[k] == s;
      var i :| 0 <= i < |alerts| && alerts[i].id == s.alertId;
    }
    assert row == (alerts + [row])[|alerts|];
  }

  /**
   * A status write stamped no earlier than the alert's other checks becomes
   * the status that `GET /api/alerts` shows for it.
   */
  lemma StatusWriteBecomesLatest(alerts: seq<AlertRow>, statuses: seq<StatusRow>, req: StatusRequest, stamp: int, a: AlertRow)
    requires DecideStatusWrite(alerts, req, Some(stamp)).Ok?
    requires a in alerts && a.id == DecideStatusWrite(alerts, req, Some(stamp)).value.alertId
    requires forall s :: s in statuses && s.alertId == a.id ==> s.checkedAt <= stamp
    ensures ListedAlert(a, Some(DecideStatusWrite(alerts, req, Some(stamp)).value))
      in AlertListing(alerts, statuses + [DecideStatusWrite(alerts, req, Some(stamp)).value])
  {
    var row := DecideStatusWrite(alerts, req, Some(stamp)).value;
    var after := statuses + [row];
    assert row in after by {
      assert after[|statuses|] == row;
    }
    forall s' | s' in after && s'.alertId == a.id ensures s'.checkedAt <= row.checkedAt {
      var k :| 0 <= k < |after| && after[k] == s';
      if k < |statuses| {
        assert s' == statuses[k];
      }
    }
  }

  /** After `DELETE /api/alerts/:id` neither listing shows the deleted alert. */
  lemma DeletedAlertUnlisted(alerts: seq<AlertRow>, statuses: seq<StatusRow>, path: string)
    requires DecideDelete(alerts, path).Ok?
    ensures var id := DecideDelete(alerts, path).value.id;
      && (forall x :: x in AlertListing(WithoutAlert(alerts, id), WithoutStatusesOf(statuses, id)) ==> x.alert.id != id)
      && (forall x :: x in TriggeredListing(WithoutAlert(alerts, id), WithoutStatusesOf(statuses, id)) ==> x.alert.id != id)
  {
  }

  /** The reply of `GET /api/alerts`. */
  datatype AlertsReply = AlertsReply(count: nat, alerts: seq<ListedAlert>)

  /** The reply of `GET /api/alerts/status`. */
  datatype TriggeredReply = TriggeredReply(count: nat, triggeredAlerts: seq<TriggeredRow>, message: string)

  /** The message of `GET /api/alerts/status` for `n` rows. */
  function TriggeredMessage(n: nat): (m: string)
    ensures n == 0 ==> m == "No alerts are currently triggered"
    ensures n > 0 ==> ParseInt(m) == Some(n)
    ensures n > 0 ==> m == NatText(n) + " alert(s) are currently triggered"
  {
    if n == 0 then "No alerts are currently triggered"
    else
      NatTextThenText(n, " alert(s) are currently triggered");
      NatText(n) + " alert(s) are currently triggered"
  }

  class Store {
    var alerts: seq<AlertRow>
    var statuses: seq<StatusRow>
    var nextId: int

    ghost predicate Valid()
      reads this
    {
      StoreValid(alerts, statuses, nextId)
    }

    /** Empty tables; AUTO_INCREMENT starts at 1. */
    constructor()
      ensures Valid()
      ensures alerts == [] && statuses == [] && nextId == 1
    {
      alerts := [];
      statuses := [];
      nextId := 1;
    }

    /** `POST /api/alerts`; `now` is the `created_at` the database stamps. */
    method CreateAlert(body: NewAlertBody, now: int) returns (r: Result<AlertRow, ApiError>)
      requires Valid()
      modifies this
      ensures Valid() && |alerts| <= MaxAlerts
      ensures r == DecideCreate(old(alerts), body, old(nextId), now)
      ensures r.Ok? ==> alerts == old(alerts) + [r.value] && nextId == old(nextId) + 1
      ensures r.Err? ==> alerts == old(alerts) && nextId == old(nextId)
      ensures statuses == old(statuses)
    {
      r := DecideCreate(alerts, body, nextId, now);
      if r.Ok? {
        CreateKeepsValid(alerts, statuses, nextId, body, now);
        alerts := alerts + [r.value];
        nextId := nextId + 1;
      }
    }

    /**
     * `DELETE /api/alerts/:id`: on success the reply carries the id and the
     * stored description, and the cascade removes the alert's status rows.
     */
    method DeleteAlert(path: string) returns (r: Result<(int, Option<string>), ApiError>)
      requires Valid()
      modifies this
      ensures Valid()
      ensures r.Ok? <==> DecideDelete(old(alerts), path).Ok?
      ensures r.Err? ==> (r.error == DecideDelete(old(alerts), path).error
        && alerts == old(alerts) && statuses == old(statuses))
      ensures r.Ok? ==> var gone := DecideDelete(old(alerts), path).value;
        && r.value == (gone.id, gone.description)
        && alerts == WithoutAlert(old(alerts), gone.id)
        && statuses == WithoutStatusesOf(old(statuses), gone.id)
        && |alerts| == |old(alerts)| - 1
      ensures nextId == old(nextId)
    {
      match DecideDelete(alerts, path)
      case Err(e) =>
        r := Err(e);
      case Ok(gone) =>
        DeleteKeepsValid(alerts, statuses, nextId, path);
        alerts := WithoutAlert(alerts, gone.id);
        statuses := WithoutStatusesOf(statuses, gone.id);
        r := Ok((gone.id, gone.description));
    }

    /** `PUT /api/alerts/:id/status`; `stamp` is the `checked_at` stored, None when it denotes no date. */
    method PutStatus(req: StatusRequest, stamp: Option<int>) returns (r: Result<StatusRow, ApiError>)
      requires Valid()
      modifies this
      ensures Valid()
      ensures r == DecideStatusWrite(old(alerts), req, stamp)
      ensures r.Ok? ==> statuses == old(statuses) + [r.value]
      ensures r.Err? ==> statuses == old(statuses)
      ensures alerts == old(alerts) && nextId == old(nextId)
    {
      r := DecideStatusWrite(alerts, req, stamp);
      if r.Ok? {
        StatusWriteKeepsValid(alerts, statuses, nextId, req, stamp);
        statuses := statuses + [r.value];
      }
    }

    /**
     * `GET /api/alerts`: every stored alert at least once, with its latest
     * status, newest alert first; exactly once each when no alert has two
     * status rows at its latest `checked_at`.
     */
    function ListAlerts(): (reply: AlertsReply)
      reads this
      ensures reply.alerts == AlertListing(alerts, statuses)
      ensures SortedDesc(reply.alerts, CreatedKey)
      ensures reply.count == |reply.alerts|
      ensures (forall i :: 0 <= i < |alerts| ==> SingleLatest(statuses, alerts[i].id)) ==> reply.count == |alerts|
      ensures forall x :: x in reply.alerts <==> x.alert in alerts && IsLatestPairing(x, statuses)
      ensures forall a :: a in alerts ==> exists x :: x in reply.alerts && x.alert == a
    {
      var rows := AlertListing(alerts, statuses);
      assert forall a :: a in alerts ==> exists x :: x in rows && x.alert == a by {
        forall a | a in alerts ensures exists x :: x in rows && x.alert == a {
          EveryAlertListed(alerts, statuses, a);
        }
      }
      assert (forall i :: 0 <= i < |alerts| ==> SingleLatest(statuses, alerts[i].id)) ==> |rows| == |alerts| by {
        if forall i :: 0 <= i < |alerts| ==> SingleLatest(statuses, alerts[i].id) {
          AlertListingCount(alerts, statuses);
        }
      }
      AlertsReply(|rows|, rows)
    }

    /** `GET /api/alerts/status`: every triggered status row, latest check first, one row per triggered write. */
    function ListTriggered(): (reply: TriggeredReply)
      reads this
      requires Valid()
      ensures reply.triggeredAlerts == TriggeredListing(alerts, statuses)
      ensures SortedDesc(reply.triggeredAlerts, CheckedKey)
      ensures reply.count == |reply.triggeredAlerts| == TriggeredRowCount(statuses)
      ensures forall x :: x in reply.triggeredAlerts <==> IsTriggeredJoin(x, alerts, statuses)
      ensures reply.message == TriggeredMessage(reply.count)
    {
      var rows := TriggeredListing(alerts, statuses);
      TriggeredListingCount(alerts, statuses);
      TriggeredReply(|rows|, rows, TriggeredMessage(|rows|))
    }
  }
}
