/**
 * The backend's two tables, `alerts` and `alert_status`, as sequences of
 * rows in insertion order, with the constraints the schema and the handlers
 * keep, and the two read queries of `GET /api/alerts` and
 * `GET /api/alerts/status` as functions of the tables.
 */
module AlertTables {
  import opened Wire
  import opened Ordering

  /** The cap on stored alerts that `POST /api/alerts` enforces. */
  const MaxAlerts: nat := 3

  /** The operators `POST /api/alerts` accepts; the `operator` column's ENUM has the same five. */
  const Operators: seq<string> := [">", "<", ">=", "<=", "="]

  datatype AlertRow = AlertRow(
    id: int, lat: real, lon: real, parameter: string, operator: string,
    threshold: real, description: Option<string>, createdAt: int)

  /** A row of `alert_status`; the table is append-only, one row per accepted status write. */
  datatype StatusRow = StatusRow(alertId: int, isTriggered: bool, checkedAt: int, currentValue: real)

  /** What `POST /api/alerts` lets into the table: note that a latitude or longitude of 0 is refused. */
  predicate Admissible(a: AlertRow)
  {
    && a.id > 0
    && a.lat != 0.0 && -90.0 <= a.lat <= 90.0
    && a.lon != 0.0 && -180.0 <= a.lon <= 180.0
    && a.parameter != ""
    && a.operator in Operators
  }

  predicate HasAlert(alerts: seq<AlertRow>, id: int)
  {
    exists i :: 0 <= i < |alerts| && alerts[i].id == id
  }

  ghost predicate UniqueIds(alerts: seq<AlertRow>)
  {
    forall i, j :: 0 <= i < j < |alerts| ==> alerts[i].id != alerts[j].id
  }

  /**
   * The tables as the handlers keep them: at most three alerts, primary keys
   * unique, every alert admissible, and every status row referring to an
   * existing alert (the foreign key with ON DELETE CASCADE).
   */
  ghost predicate TablesValid(alerts: seq<AlertRow>, statuses: seq<StatusRow>)
  {
    && |alerts| <= MaxAlerts
    && UniqueIds(alerts)
    && (forall i :: 0 <= i < |alerts| ==> Admissible(alerts[i]))
    && (forall k :: 0 <= k < |statuses| ==> HasAlert(alerts, statuses[k].alertId))
  }

  /** `SELECT ... FROM alerts WHERE id = ?`. */
  function FindAlert(alerts: seq<AlertRow>, id: int): (r: Option<AlertRow>)
    ensures r.Some? ==> r.value in alerts && r.value.id == id
    ensures r.None? <==> !HasAlert(alerts, id)
  {
    if alerts == [] then None
    else if alerts[0].id == id then Some(alerts[0])
    else
      var r := FindAlert(alerts[1..], id);
      assert HasAlert(alerts, id) ==> HasAlert(alerts[1..], id) by {
        if HasAlert(alerts, id) {
          var i :| 0 <= i < |alerts| && alerts[i].id == id;
          assert alerts[1..][i - 1].id == id;
        }
      }
      assert HasAlert(alerts[1..], id) ==> HasAlert(alerts, id) by {
        if HasAlert(alerts[1..], id) {
          var i :| 0 <= i < |alerts[1..]| && alerts[1..][i].id == id;
          assert alerts[i + 1].id == id;
        }
      }
      r
  }

  /** `DELETE FROM alerts WHERE id = ?`: the alerts table without that id. */
  function WithoutAlert(alerts: seq<AlertRow>, id: int): (r: seq<AlertRow>)
    ensures forall a :: a in r <==> a in alerts && a.id != id
    ensures |r| <= |alerts|
  {
    if alerts == [] then []
    else if alerts[0].id == id then WithoutAlert(alerts[1..], id)
    else [alerts[0]] + WithoutAlert(alerts[1..], id)
  }

  /** The cascade of that delete on `alert_status`: every row of the alert goes. */
  function WithoutStatusesOf(statuses: seq<StatusRow>, id: int): (r: seq<StatusRow>)
    ensures forall s :: s in r <==> s in statuses && s.alertId != id
  {
    if statuses == [] then []
    else if statuses[0].alertId == id then WithoutStatusesOf(statuses[1..], id)
    else [statuses[0]] + WithoutStatusesOf(statuses[1..], id)
  }

  lemma UniqueTail(alerts: seq<AlertRow>)
    requires alerts != [] && UniqueIds(alerts)
    ensures UniqueIds(alerts[1..])
  {
    forall i, j | 0 <= i < j < |alerts[1..]| ensures alerts[1..][i].id != alerts[1..][j].id {
      assert alerts[1..][i] == alerts[i + 1] && alerts[1..][j] == alerts[j + 1];
    }
  }

  lemma UniqueCons(x: AlertRow, rest: seq<AlertRow>)
    requires UniqueIds(rest) && forall k :: 0 <= k < |rest| ==> rest[k].id != x.id
    ensures UniqueIds([x] + rest)
  {
    var r := [x] + rest;
    forall i, j | 0 <= i < j < |r| ensures r[i].id != r[j].id {
      assert r[j] == rest[j - 1];
      if i > 0 {
        assert r[i] == rest[i - 1];
      }
    }
  }

  /** Deleting by id keeps ids unique. */
  lemma {:induction false} WithoutAlertUnique(alerts: seq<AlertRow>, id: int)
    requires UniqueIds(alerts)
    ensures UniqueIds(WithoutAlert(alerts, id))
  {
    if alerts != [] {
      UniqueTail(alerts);
      WithoutAlertUnique(alerts[1..], id);
      if alerts[0].id != id {
        var rest := WithoutAlert(alerts[1..], id);
        forall k | 0 <= k < |rest| ensures rest[k].id != alerts[0].id {
          assert rest[k] in alerts[1..];
          var m :| 0 <= m < |alerts[1..]| && alerts[1..][m] == rest[k];
          assert alerts[m + 1] == rest[k];
        }
        UniqueCons(alerts[0], rest);
      }
    }
  }

  /** With unique ids, deleting an existing id removes exactly one row. */
  lemma {:induction false} WithoutAlertRemovesOne(alerts: seq<AlertRow>, id: int)
    requires UniqueIds(alerts) && HasAlert(alerts, id)
    ensures |WithoutAlert(alerts, id)| == |alerts| - 1
  {
    var tail := alerts[1..];
    if alerts[0].id == id {
      assert forall i :: 0 <= i < |tail| ==> tail[i].id != id by {
        forall i | 0 <= i < |tail| ensures tail[i].id != id {
          assert tail[i] == alerts[i + 1];
        }
      }
      WithoutAbsentAlert(tail, id);
    } else {
      var i :| 0 <= i < |alerts| && alerts[i].id == id;
      assert tail[i - 1].id == id;
      assert UniqueIds(tail) by {
        forall p, q | 0 <= p < q < |tail| ensures tail[p].id != tail[q].id {
          assert tail[p] == alerts[p + 1] && tail[q] == alerts[q + 1];
        }
      }
      WithoutAlertRemovesOne(tail, id);
    }
  }

  /** Deleting an id that is not present changes nothing. */
  lemma {:induction false} WithoutAbsentAlert(alerts: seq<AlertRow>, id: int)
    requires !HasAlert(alerts, id)
    ensures WithoutAlert(alerts, id) == alerts
  {
    if alerts != [] {
      var tail := alerts[1..];
      assert alerts[0].id != id;
      assert !HasAlert(tail, id) by {
        forall i | 0 <= i < |tail| ensures tail[i].id != id {
          assert tail[i] == alerts[i + 1];
        }
      }
      WithoutAbsentAlert(tail, id);
      assert WithoutAlert(alerts, id) == [alerts[0]] + WithoutAlert(tail, id);
      assert alerts == [alerts[0]] + tail;
    }
  }

  // ---------------------------------------------------------------------------
  // GET /api/alerts: every alert with its latest status

  /** A row of `GET /api/alerts`: the alert's columns and the status columns, all null when `status` is None. */
  datatype ListedAlert = ListedAlert(alert: AlertRow, status: Option<StatusRow>)

  /** The status rows of one alert, `WHERE s2.alert_id = a.id`. */
  function StatusesOf(statuses: seq<StatusRow>, id: int): (r: seq<StatusRow>)
    ensures forall s :: s in r <==> s in statuses && s.alertId == id
  {
    if statuses == [] then []
    else if statuses[0].alertId == id then [statuses[0]] + StatusesOf(statuses[1..], id)
    else StatusesOf(statuses[1..], id)
  }

  /** `MAX(checked_at)` over a non-empty set of status rows. */
  function LatestCheck(rows: seq<StatusRow>): (t: int)
    requires rows != []
    ensures exists k :: 0 <= k < |rows| && rows[k].checkedAt == t
    ensures forall k :: 0 <= k < |rows| ==> rows[k].checkedAt <= t
  {
    if |rows| == 1 then rows[0].checkedAt
    else
      var t := LatestCheck(rows[1..]);
      assert forall k :: 1 <= k < |rows| ==> rows[k] == rows[1..][k - 1];
      if rows[0].checkedAt >= t then rows[0].checkedAt
      else
        var k :| 0 <= k < |rows[1..]| && rows[1..][k].checkedAt == t;
        assert rows[k + 1].checkedAt == t;
        t
  }

  /** The alert paired with each of the given status rows. */
  function PairWith(a: AlertRow, rows: seq<StatusRow>): (r: seq<ListedAlert>)
    ensures forall x :: x in r <==> x.alert == a && x.status.Some? && x.status.value in rows
    ensures |r| == |rows|
  {
    if rows == [] then []
    else
      [ListedAlert(a, Some(rows[0]))] + PairWith(a, rows[1..])
  }

  /** The status rows among `rows` checked at time `t`. */
  function CheckedAt(rows: seq<StatusRow>, t: int): (r: seq<StatusRow>)
    ensures forall s :: s in r <==> s in rows && s.checkedAt == t
  {
    if rows == [] then []
    else if rows[0].checkedAt == t then [rows[0]] + CheckedAt(rows[1..], t)
    else CheckedAt(rows[1..], t)
  }

  /**
   * The rows the LEFT JOIN keeps for one alert: one row with null status
   * columns when the alert has no status, otherwise one row per status row
   * whose `checked_at` equals the maximum.
   */
  function ListingFor(a: AlertRow, statuses: seq<StatusRow>): seq<ListedAlert>
  {
    var mine := StatusesOf(statuses, a.id);
    if mine == [] then [ListedAlert(a, None)] else PairWith(a, CheckedAt(mine, LatestCheck(mine)))
  }

  function JoinLatest(alerts: seq<AlertRow>, statuses: seq<StatusRow>): seq<ListedAlert>
  {
    if alerts == [] then [] else ListingFor(alerts[0], statuses) + JoinLatest(alerts[1..], statuses)
  }

  /** The row pairs the alert with its latest status, or with null when it has none. */
  ghost predicate IsLatestPairing(x: ListedAlert, statuses: seq<StatusRow>)
  {
    match x.status
    case None => forall s :: s in statuses ==> s.alertId != x.alert.id
    case Some(s) =>
      && s in statuses && s.alertId == x.alert.id
      && forall s' :: s' in statuses && s'.alertId == x.alert.id ==> s'.checkedAt <= s.checkedAt
  }

  lemma ListingForMembers(a: AlertRow, statuses: seq<StatusRow>, x: ListedAlert)
    ensures x in ListingFor(a, statuses) <==> x.alert == a && IsLatestPairing(x, statuses)
  {
    var mine := StatusesOf(statuses, a.id);
    if mine != [] {
      var t := LatestCheck(mine);
      var k :| 0 <= k < |mine| && mine[k].checkedAt == t;
      assert mine[k] in mine;
      if x.alert == a && IsLatestPairing(x, statuses) {
        var s := x.status.value;
        assert s in mine;
        var j :| 0 <= j < |mine| && mine[j] == s;
        assert mine[k] in statuses && mine[k].alertId == a.id;
        assert s.checkedAt == t;
      }
      if x in ListingFor(a, statuses) {
        forall s' | s' in statuses && s'.alertId == a.id ensures s'.checkedAt <= x.status.value.checkedAt {
          assert s' in mine;
        }
      }
    }
  }

  lemma {:induction false} JoinLatestMembers(alerts: seq<AlertRow>, statuses: seq<StatusRow>, x: ListedAlert)
    ensures x in JoinLatest(alerts, statuses) <==> x.alert in alerts && IsLatestPairing(x, statuses)
  {
    if alerts != [] {
      ListingForMembers(alerts[0], statuses, x);
      JoinLatestMembers(alerts[1..], statuses, x);
      assert x.alert in alerts <==> x.alert == alerts[0] || x.alert in alerts[1..] by {
        assert alerts == [alerts[0]] + alerts[1..];
      }
    }
  }

  function CreatedKey(x: ListedAlert): int
  {
    x.alert.createdAt
  }

  /**
   * `GET /api/alerts`: each alert with its latest status (or with nulls),
   * ordered by `created_at` descending.
   */
  function AlertListing(alerts: seq<AlertRow>, statuses: seq<StatusRow>): (r: seq<ListedAlert>)
    ensures SortedDesc(r, CreatedKey)
    ensures multiset(r) == multiset(JoinLatest(alerts, statuses))
    ensures forall x :: x in r <==> x.alert in alerts && IsLatestPairing(x, statuses)
  {
    var joined := JoinLatest(alerts, statuses);
    var r := SortDesc(joined, CreatedKey);
    assert forall x :: x in r <==> x.alert in alerts && IsLatestPairing(x, statuses) by {
      forall x ensures x in r <==> x.alert in alerts && IsLatestPairing(x, statuses) {
        SortDescMembers(joined, CreatedKey, x);
        JoinLatestMembers(alerts, statuses, x);
      }
    }
    r
  }

  /** Every stored alert appears in the listing. */
  lemma EveryAlertListed(alerts: seq<AlertRow>, statuses: seq<StatusRow>, a: AlertRow)
    requires a in alerts
    ensures exists x :: x in AlertListing(alerts, statuses) && x.alert == a
  {
    var mine := StatusesOf(statuses, a.id);
    var x;
    if mine == [] {
      x := ListedAlert(a, None);
      forall s | s in statuses ensures s.alertId != a.id {
        assert s in mine <==> s.alertId == a.id;
      }
    } else {
      var t := LatestCheck(mine);
      var k :| 0 <= k < |mine| && mine[k].checkedAt == t;
      assert mine[k] in mine;
      x := ListedAlert(a, Some(mine[k]));
      forall s' | s' in statuses && s'.alertId == a.id ensures s'.checkedAt <= t {
        assert s' in mine;
      }
    }
    assert IsLatestPairing(x, statuses);
    assert x in AlertListing(alerts, statuses);
  }

  /** At most one status row of the alert carries its latest `checked_at`. */
  ghost predicate SingleLatest(statuses: seq<StatusRow>, id: int)
  {
    var mine := StatusesOf(statuses, id);
    mine != [] ==> |CheckedAt(mine, LatestCheck(mine))| <= 1
  }

  /** Without a tie at its latest check, an alert contributes exactly one row to the join. */
  lemma ListingForSingle(a: AlertRow, statuses: seq<StatusRow>)
    requires SingleLatest(statuses, a.id)
    ensures |ListingFor(a, statuses)| == 1 && ListingFor(a, statuses)[0].alert == a
  {
    var mine := StatusesOf(statuses, a.id);
    if mine != [] {
      var t := LatestCheck(mine);
      var k :| 0 <= k < |mine| && mine[k].checkedAt == t;
      assert mine[k] in CheckedAt(mine, t);
      var pairs := PairWith(a, CheckedAt(mine, t));
      assert pairs[0] in pairs;
    }
  }

  /**
   * When no alert has two status rows at its latest check, `GET /api/alerts`
   * lists each alert exactly once: the join has one row per alert, in table
   * order, and the listing is that join reordered.
   */
  lemma {:induction false} AlertListingCount(alerts: seq<AlertRow>, statuses: seq<StatusRow>)
    requires forall i :: 0 <= i < |alerts| ==> SingleLatest(statuses, alerts[i].id)
    ensures |JoinLatest(alerts, statuses)| == |alerts|
    ensures forall i :: 0 <= i < |alerts| ==> JoinLatest(alerts, statuses)[i].alert == alerts[i]
    ensures |AlertListing(alerts, statuses)| == |alerts|
  {
    if alerts != [] {
      ListingForSingle(alerts[0], statuses);
      AlertListingCount(alerts[1..], statuses);
      var head := ListingFor(alerts[0], statuses);
      var tail := JoinLatest(alerts[1..], statuses);
      assert JoinLatest(alerts, statuses) == head + tail;
      forall i | 0 <= i < |alerts| ensures JoinLatest(alerts, statuses)[i].alert == alerts[i] {
        if i > 0 {
          assert (head + tail)[i] == tail[i - 1];
          assert alerts[1..][i - 1] == alerts[i];
        }
      }
    }
    assert |multiset(AlertListing(alerts, statuses))| == |multiset(JoinLatest(alerts, statuses))|;
  }

  /**
   * Two status rows of one alert checked in the same second both match the
   * maximum, so the alert is listed twice (and `count` counts it twice).
   */
  lemma TiedLatestChecksRepeatAlert(a: AlertRow, v: real)
    ensures |AlertListing([a], [StatusRow(a.id, true, 7, v), StatusRow(a.id, false, 7, v)])| == 2
  {
    var s1 := StatusRow(a.id, true, 7, v);
    var s2 := StatusRow(a.id, false, 7, v);
    var statuses := [s1, s2];
    assert statuses[1..] == [s2];
    assert [s2][1..] == [];
    assert StatusesOf([s2], a.id) == [s2];
    assert StatusesOf(statuses, a.id) == statuses;
    assert LatestCheck(statuses) == 7;
    assert CheckedAt([s2], 7) == [s2];
    assert CheckedAt(statuses, 7) == statuses;
    var pairs := PairWith(a, statuses);
    assert PairWith(a, [s2]) == [ListedAlert(a, Some(s2))];
    assert pairs == [ListedAlert(a, Some(s1)), ListedAlert(a, Some(s2))];
    assert JoinLatest([a], statuses) == pairs by {
      assert [a][1..] == [];
    }
    SortDescMembers(pairs, CreatedKey, ListedAlert(a, None));
  }

  // ---------------------------------------------------------------------------
  // GET /api/alerts/status: every triggered status row

  /** A row of `GET /api/alerts/status`: the alert's columns with `is_triggered` and `checked_at`. */
  datatype TriggeredRow = TriggeredRow(alert: AlertRow, isTriggered: bool, checkedAt: int)

  /** The INNER JOIN partners of one status row. */
  function JoinStatus(alerts: seq<AlertRow>, s: StatusRow): (r: seq<TriggeredRow>)
    ensures forall x :: x in r <==> x.alert in alerts && x.alert.id == s.alertId && x.isTriggered == s.isTriggered && x.checkedAt == s.checkedAt
  {
    if alerts == [] then []
    else if alerts[0].id == s.alertId then [TriggeredRow(alerts[0], s.isTriggered, s.checkedAt)] + JoinStatus(alerts[1..], s)
    else JoinStatus(alerts[1..], s)
  }

  /** `INNER JOIN alert_status ast ON a.id = ast.alert_id WHERE ast.is_triggered = true`. */
  function JoinTriggered(alerts: seq<AlertRow>, statuses: seq<StatusRow>): seq<TriggeredRow>
  {
    if statuses == [] then []
    else (if statuses[0].isTriggered then JoinStatus(alerts, statuses[0]) else []) + JoinTriggered(alerts, statuses[1..])
  }

  /**
   * The row is a triggered status row of a stored alert, joined to that
   * alert: some status row has the alert's id, is triggered and was checked
   * at `x.checkedAt`. The query does not select `current_value`, so the rows
   * are compared with it blanked by `Unvalued`.
   */
  ghost predicate IsTriggeredJoin(x: TriggeredRow, alerts: seq<AlertRow>, statuses: seq<StatusRow>)
  {
    && x.alert in alerts && x.isTriggered
    && StatusRow(x.alert.id, true, x.checkedAt, 0.0) in Unvalued(statuses)
  }

  /** The status rows without their `current_value`, which the query does not select. */
  function Unvalued(statuses: seq<StatusRow>): (r: seq<StatusRow>)
    ensures |r| == |statuses|
    ensures forall k :: 0 <= k < |r| ==> r[k] == statuses[k].(currentValue := 0.0)
  {
    if statuses == [] then [] else [statuses[0].(currentValue := 0.0)] + Unvalued(statuses[1..])
  }

  lemma {:induction false} JoinTriggeredMembers(alerts: seq<AlertRow>, statuses: seq<StatusRow>, x: TriggeredRow)
    ensures x in JoinTriggered(alerts, statuses) <==> IsTriggeredJoin(x, alerts, statuses)
  {
    var probe := StatusRow(x.alert.id, true, x.checkedAt, 0.0);
    if statuses != [] {
      JoinTriggeredMembers(alerts, statuses[1..], x);
      var u := Unvalued(statuses);
      assert Unvalued(statuses[1..]) == u[1..];
      assert probe in u <==> probe == u[0] || probe in u[1..] by {
        assert u == [u[0]] + u[1..];
      }
    }
  }

  function CheckedKey(x: TriggeredRow): int
  {
    x.checkedAt
  }

  /**
   * `GET /api/alerts/status`: every triggered status row joined to its alert
   * (not only each alert's latest row), ordered by `checked_at` descending.
   */
  function TriggeredListing(alerts: seq<AlertRow>, statuses: seq<StatusRow>): (r: seq<TriggeredRow>)
    ensures SortedDesc(r, CheckedKey)
    ensures multiset(r) == multiset(JoinTriggered(alerts, statuses))
    ensures forall x :: x in r <==> IsTriggeredJoin(x, alerts, statuses)
  {
    var joined := JoinTriggered(alerts, statuses);
    var r := SortDesc(joined, CheckedKey);
    assert forall x :: x in r <==> IsTriggeredJoin(x, alerts, statuses) by {
      forall x ensures x in r <==> IsTriggeredJoin(x, alerts, statuses) {
        SortDescMembers(joined, CheckedKey, x);
        JoinTriggeredMembers(alerts, statuses, x);
      }
    }
    r
  }

  /** The number of status rows with `is_triggered = true`. */
  function TriggeredRowCount(statuses: seq<StatusRow>): nat
  {
    if statuses == [] then 0
    else (if statuses[0].isTriggered then 1 else 0) + TriggeredRowCount(statuses[1..])
  }

  /** With unique alert ids a status row of a stored alert has exactly one join partner. */
  lemma {:induction false} JoinStatusSingle(alerts: seq<AlertRow>, s: StatusRow)
    requires UniqueIds(alerts) && HasAlert(alerts, s.alertId)
    ensures |JoinStatus(alerts, s)| == 1
  {
    var tail := alerts[1..];
    assert UniqueIds(tail) by {
      forall p, q | 0 <= p < q < |tail| ensures tail[p].id != tail[q].id {
        assert tail[p] == alerts[p + 1] && tail[q] == alerts[q + 1];
      }
    }
    if alerts[0].id == s.alertId {
      assert forall m :: 0 <= m < |tail| ==> tail[m].id != s.alertId by {
        forall m | 0 <= m < |tail| ensures tail[m].id != s.alertId {
          assert tail[m] == alerts[m + 1];
        }
      }
      JoinStatusAbsent(tail, s);
    } else {
      var i :| 0 <= i < |alerts| && alerts[i].id == s.alertId;
      assert tail[i - 1].id == s.alertId;
      JoinStatusSingle(tail, s);
    }
  }

  lemma {:induction false} JoinStatusAbsent(alerts: seq<AlertRow>, s: StatusRow)
    requires forall m :: 0 <= m < |alerts| ==> alerts[m].id != s.alertId
    ensures JoinStatus(alerts, s) == []
  {
    if alerts != [] {
      assert forall m :: 0 <= m < |alerts[1..]| ==> alerts[1..][m] == alerts[m + 1];
      JoinStatusAbsent(alerts[1..], s);
    }
  }

  /** On valid tables the triggered listing has one row per triggered status row. */
  lemma {:induction false} TriggeredListingCount(alerts: seq<AlertRow>, statuses: seq<StatusRow>)
    requires TablesValid(alerts, statuses)
    ensures |TriggeredListing(alerts, statuses)| == TriggeredRowCount(statuses)
  {
    JoinTriggeredCount(alerts, statuses);
    var joined := JoinTriggered(alerts, statuses);
    SortDescMembers(joined, CheckedKey, TriggeredRow(AlertRow(0, 0.0, 0.0, "", "", 0.0, None, 0), false, 0));
  }

  lemma {:induction false} JoinTriggeredCount(alerts: seq<AlertRow>, statuses: seq<StatusRow>)
    requires UniqueIds(alerts)
    requires forall k :: 0 <= k < |statuses| ==> HasAlert(alerts, statuses[k].alertId)
    ensures |JoinTriggered(alerts, statuses)| == TriggeredRowCount(statuses)
  {
    if statuses != [] {
      if statuses[0].isTriggered {
        JoinStatusSingle(alerts, statuses[0]);
      }
      assert forall k :: 0 <= k < |statuses[1..]| ==> statuses[1..][k] == statuses[k + 1];
      JoinTriggeredCount(alerts, statuses[1..]);
    }
  }

  // ---------------------------------------------------------------------------
  // The alerts whose latest status is triggered

  /** The rows of the full listing whose latest status is triggered. */
  function CurrentlyTriggeredRows(rows: seq<ListedAlert>): (r: seq<ListedAlert>)
    ensures forall x :: x in r <==> x in rows && x.status.Some? && x.status.value.isTriggered
  {
    if rows == [] then []
    else if rows[0].status.Some? && rows[0].status.value.isTriggered then [rows[0]] + CurrentlyTriggeredRows(rows[1..])
    else CurrentlyTriggeredRows(rows[1..])
  }

  /** The alerts that are triggered now: those whose latest status row is triggered. */
  function CurrentlyTriggered(alerts: seq<AlertRow>, statuses: seq<StatusRow>): (r: seq<ListedAlert>)
    ensures forall x :: x in r <==>
      && x.alert in alerts && IsLatestPairing(x, statuses)
      && x.status.Some? && x.status.value.isTriggered
  {
    CurrentlyTriggeredRows(AlertListing(alerts, statuses))
  }

  /**
   * An alert triggered at time 1 and clear at time 2 is still reported by
   * `GET /api/alerts/status`, although it is not currently triggered.
   */
  lemma TriggeredListingReportsStaleRows(a: AlertRow, v: real)
    ensures var statuses := [StatusRow(a.id, true, 1, v), StatusRow(a.id, false, 2, v)];
      && TriggeredListing([a], statuses) == [TriggeredRow(a, true, 1)]
      && CurrentlyTriggered([a], statuses) == []
  {
    var s1 := StatusRow(a.id, true, 1, v);
    var s2 := StatusRow(a.id, false, 2, v);
    var statuses := [s1, s2];
    assert statuses[1..] == [s2];
    assert statuses[1..][1..] == [];
    assert [a][1..] == [];
    assert JoinStatus([a], s1) == [TriggeredRow(a, true, 1)];
    assert JoinTriggered([a], [s2]) == [];
    assert JoinTriggered([a], statuses) == [TriggeredRow(a, true, 1)];
    assert StatusesOf([s2], a.id) == [s2];
    assert StatusesOf(statuses, a.id) == statuses;
    assert LatestCheck(statuses) == 2;
    assert CheckedAt([s2], 2) == [s2];
    assert CheckedAt(statuses, 2) == [s2];
    var only := ListedAlert(a, Some(s2));
    assert PairWith(a, [s2]) == [only];
    assert JoinLatest([a], statuses) == [only];
    assert [only][1..] == [];
    assert SortDesc([only], CreatedKey) == [only];
    assert CurrentlyTriggeredRows([only]) == [];
  }
}
