/**
 * The decisions the backend's handlers take before and instead of touching
 * the tables: the guard chains of `POST /api/alerts`, `DELETE /api/alerts/:id`,
 * `PUT /api/alerts/:id/status` and `GET /api/weather`, each a pure function
 * of the request and the current tables.
 */
module RequestChecks {
  import opened Wire
  import opened AlertTables

  /** The error replies of the handlers; `HttpStatus` gives the status code of each. */
  datatype ApiError =
    | MissingFields | BadLatitude | BadLongitude | BadThreshold | BadOperator
    | LimitReached
    | InvalidAlertId | AlertNotFound
    | BadIsTriggered | BadCurrentValue | UnreadableCheckedAt
    | MissingCoordinates | InvalidLatitude | InvalidLongitude
    | WeatherNotConfigured | WeatherFetchFailed(message: string)

  function HttpStatus(e: ApiError): int
  {
    if e.LimitReached? then 429
    else if e.AlertNotFound? then 404
    else if e.WeatherNotConfigured? then 503
    else if e.WeatherFetchFailed? || e.UnreadableCheckedAt? then 500
    else 400
  }

  /** The replies with status 500: a failed provider fetch and an unreadable `checked_at`. */
  lemma ServerErrors(e: ApiError)
    ensures HttpStatus(e) == 500 <==> e.WeatherFetchFailed? || e.UnreadableCheckedAt?
  {
  }

  // ---------------------------------------------------------------------------
  // POST /api/alerts

  /**
   * The body of `POST /api/alerts`. `parameter` and `description` are text
   * or absent; the other fields are whatever JSON the client sent.
   */
  datatype NewAlertBody = NewAlertBody(
    lat: JsValue, lon: JsValue, parameter: Option<string>, operator: JsValue,
    threshold: JsValue, description: Option<string>)

  /** The values `POST /api/alerts` inserts once the body has passed its checks. */
  datatype NewAlert = NewAlert(
    lat: real, lon: real, parameter: string, operator: string, threshold: real,
    description: Option<string>)

  /** The guard of missing fields: note that `!lat` also holds for a latitude of 0. */
  predicate MissingField(body: NewAlertBody)
  {
    Falsy(body.lat) || Falsy(body.lon) || TextFalsy(body.parameter) || Falsy(body.operator)
    || body.threshold == Undefined
  }

  /** What the checks of `POST /api/alerts` accept, stated as one condition on the body. */
  predicate AcceptableBody(body: NewAlertBody)
  {
    && body.lat.Num? && body.lat.n != 0.0 && -90.0 <= body.lat.n <= 90.0
    && body.lon.Num? && body.lon.n != 0.0 && -180.0 <= body.lon.n <= 180.0
    && body.parameter.Some? && body.parameter.value != ""
    && body.operator.Str? && body.operator.s in Operators
    && body.threshold.Num?
  }

  /** The validation chain of `POST /api/alerts`, in the handler's order. */
  function ValidateNewAlert(body: NewAlertBody): (r: Result<NewAlert, ApiError>)
    ensures r.Ok? <==> AcceptableBody(body)
    ensures r.Ok? ==> r.value == NewAlert(body.lat.n, body.lon.n, body.parameter.value,
      body.operator.s, body.threshold.n,
      if TextFalsy(body.description) then None else body.description)
    ensures r.Err? ==> HttpStatus(r.error) == 400
    ensures MissingField(body) <==> r == Err(MissingFields)
    ensures !MissingField(body) && !(body.lat.Num? && -90.0 <= body.lat.n <= 90.0) ==> r == Err(BadLatitude)
  {
    if MissingField(body) then Err(MissingFields)
    else if !body.lat.Num? || body.lat.n < -90.0 || body.lat.n > 90.0 then Err(BadLatitude)
    else if !body.lon.Num? || body.lon.n < -180.0 || body.lon.n > 180.0 then Err(BadLongitude)
    else if !body.threshold.Num? then Err(BadThreshold)
    else if !(body.operator.Str? && body.operator.s in Operators) then Err(BadOperator)
    else
      Ok(NewAlert(body.lat.n, body.lon.n, body.parameter.value, body.operator.s, body.threshold.n,
        if TextFalsy(body.description) then None else body.description))
  }

  /** The row `POST /api/alerts` appends: the next AUTO_INCREMENT id, `created_at` from the clock. */
  function NewRow(id: int, a: NewAlert, now: int): AlertRow
  {
    AlertRow(id, a.lat, a.lon, a.parameter, a.operator, a.threshold, a.description, now)
  }

  /**
   * `POST /api/alerts`: validation first, then the cap on the current count,
   * then the row to insert.
   */
  function DecideCreate(alerts: seq<AlertRow>, body: NewAlertBody, nextId: int, now: int): (r: Result<AlertRow, ApiError>)
    ensures r.Ok? <==> AcceptableBody(body) && |alerts| < MaxAlerts
    ensures r == Err(LimitReached) <==> AcceptableBody(body) && |alerts| >= MaxAlerts
    ensures r.Ok? ==> (r.value.id == nextId && r.value.createdAt == now
      && Ok(NewAlert(r.value.lat, r.value.lon, r.value.parameter, r.value.operator, r.value.threshold,
        r.value.description)) == ValidateNewAlert(body))
  {
    match ValidateNewAlert(body)
    case Err(e) => Err(e)
    case Ok(a) => if |alerts| >= MaxAlerts then Err(LimitReached) else Ok(NewRow(nextId, a, now))
  }

  /** A latitude or longitude of 0 is refused as a missing field, however in range it is. */
  lemma ZeroCoordinateIsMissing(body: NewAlertBody)
    requires body.lat == Num(0.0) || body.lon == Num(0.0)
    ensures ValidateNewAlert(body) == Err(MissingFields)
  {
  }

  /** A threshold of 0 is accepted, and so is any non-empty parameter name. */
  lemma ZeroThresholdAccepted(lat: real, lon: real, parameter: string, operator: string)
    requires lat != 0.0 && -90.0 <= lat <= 90.0 && lon != 0.0 && -180.0 <= lon <= 180.0
    requires parameter != "" && operator in Operators
    ensures ValidateNewAlert(NewAlertBody(Num(lat), Num(lon), Some(parameter), Str(operator), Num(0.0), None)).Ok?
  {
  }

  /** A row the checks let through is admissible. */
  lemma CreatedRowAdmissible(alerts: seq<AlertRow>, body: NewAlertBody, nextId: int, now: int)
    requires nextId > 0 && DecideCreate(alerts, body, nextId, now).Ok?
    ensures Admissible(DecideCreate(alerts, body, nextId, now).value)
  {
  }

  // ---------------------------------------------------------------------------
  // The `:id` path segment of DELETE and PUT

  /** `parseInt(req.params.id)`, refused when NaN or not positive. */
  function CheckAlertId(path: string): (r: Result<int, ApiError>)
    ensures r.Ok? <==> ParseInt(path).Some? && ParseInt(path).value > 0
    ensures r.Ok? ==> r.value == ParseInt(path).value
    ensures r.Err? ==> r.error == InvalidAlertId
  {
    match ParseInt(path)
    case None => Err(InvalidAlertId)
    case Some(id) => if id <= 0 then Err(InvalidAlertId) else Ok(id)
  }

  /** The decimal text of a positive id is accepted as that id, anything else not positive is refused. */
  lemma AlertIdText(id: int)
    ensures CheckAlertId(IntText(id)) == (if id > 0 then Ok(id) else Err(InvalidAlertId))
  {
    IntTextParses(id);
  }

  // ---------------------------------------------------------------------------
  // DELETE /api/alerts/:id

  /** `DELETE /api/alerts/:id`: the alert that goes (the reply carries its id and description). */
  function DecideDelete(alerts: seq<AlertRow>, path: string): (r: Result<AlertRow, ApiError>)
    ensures r.Ok? <==> CheckAlertId(path).Ok? && HasAlert(alerts, CheckAlertId(path).value)
    ensures r.Ok? ==> r.value in alerts && r.value.id == CheckAlertId(path).value
    ensures r.Err? ==> r.error == (if CheckAlertId(path).Err? then InvalidAlertId else AlertNotFound)
  {
    match CheckAlertId(path)
    case Err(e) => Err(e)
    case Ok(id) =>
      match FindAlert(alerts, id)
      case None => Err(AlertNotFound)
      case Some(a) => Ok(a)
  }

  // ---------------------------------------------------------------------------
  // PUT /api/alerts/:id/status

  /** The checks of `PUT /api/alerts/:id/status` that need no table: id, then `is_triggered`, then `current_value`. */
  function CheckStatusRequest(req: StatusRequest): (r: Result<(int, bool, real), ApiError>)
    ensures r.Ok? <==> CheckAlertId(req.path).Ok? && req.isTriggered.Bool? && req.currentValue.Num?
    ensures r.Ok? ==> r.value == (CheckAlertId(req.path).value, req.isTriggered.b, req.currentValue.n)
    ensures CheckAlertId(req.path).Err? ==> r == Err(InvalidAlertId)
    ensures CheckAlertId(req.path).Ok? && !req.isTriggered.Bool? ==> r == Err(BadIsTriggered)
    ensures CheckAlertId(req.path).Ok? && req.isTriggered.Bool? && !req.currentValue.Num? ==> r == Err(BadCurrentValue)
  {
    match CheckAlertId(req.path)
    case Err(e) => Err(e)
    case Ok(id) =>
      if !req.isTriggered.Bool? then Err(BadIsTriggered)
      else if !req.currentValue.Num? then Err(BadCurrentValue)
      else Ok((id, req.isTriggered.b, req.currentValue.n))
  }

  /**
   * `PUT /api/alerts/:id/status`: the row it appends once the checks pass and
   * the alert exists. `stamp` is the `checked_at` it stores: the body's time,
   * or the clock's when the body has none; it is None when the body's
   * `checked_at` denotes no date, so that converting it throws and the
   * handler answers 500 without writing.
   */
  function DecideStatusWrite(alerts: seq<AlertRow>, req: StatusRequest, stamp: Option<int>): (r: Result<StatusRow, ApiError>)
    ensures r.Ok? <==> (CheckStatusRequest(req).Ok? && HasAlert(alerts, CheckStatusRequest(req).value.0) && stamp.Some?)
    ensures r.Ok? ==> var (id, triggered, value) := CheckStatusRequest(req).value;
      r.value == StatusRow(id, triggered, stamp.value, value)
    ensures CheckStatusRequest(req).Err? ==> r == Err(CheckStatusRequest(req).error)
    ensures CheckStatusRequest(req).Ok? && !HasAlert(alerts, CheckStatusRequest(req).value.0) ==> r == Err(AlertNotFound)
    ensures (CheckStatusRequest(req).Ok? && HasAlert(alerts, CheckStatusRequest(req).value.0) && stamp.None?)
      ==> r == Err(UnreadableCheckedAt)
  {
    match CheckStatusRequest(req)
    case Err(e) => Err(e)
    case Ok((id, triggered, value)) =>
      if FindAlert(alerts, id).None? then Err(AlertNotFound)
      else if stamp.None? then Err(UnreadableCheckedAt)
      else Ok(StatusRow(id, triggered, stamp.value, value))
  }

  // ---------------------------------------------------------------------------
  // GET /api/weather

  /** `!v` for a query parameter: absent or empty. A query value "0" is text, so it is not falsy. */
  predicate QueryFalsy(v: Option<string>)
  {
    v.None? || v.value == ""
  }

  predicate InRange(n: JsNumber, bound: real)
  {
    n.Finite? && -bound <= n.r <= bound
  }

  /** One coordinate of the weather query: `parseFloat`, then the range check (NaN fails it). */
  function ReadCoordinate(t: string, bound: real): (r: Option<real>)
    ensures r.Some? <==> InRange(ParseFloat(t), bound)
    ensures r.Some? ==> r.value == ParseFloat(t).r && -bound <= r.value <= bound
  {
    var n := ParseFloat(t);
    if InRange(n, bound) then Some(n.r) else None
  }

  /** The coordinate checks of `GET /api/weather`: presence, then `parseFloat` and the ranges. */
  function CheckWeatherQuery(lat: Option<string>, lon: Option<string>): (r: Result<(real, real), ApiError>)
    ensures r.Ok? <==> (!QueryFalsy(lat) && !QueryFalsy(lon)
      && InRange(ParseFloat(lat.value), 90.0) && InRange(ParseFloat(lon.value), 180.0))
    ensures r.Ok? ==> r.value == (ParseFloat(lat.value).r, ParseFloat(lon.value).r)
    ensures QueryFalsy(lat) || QueryFalsy(lon) <==> r == Err(MissingCoordinates)
    ensures r.Err? ==> HttpStatus(r.error) == 400
  {
    assert HttpStatus(MissingCoordinates) == HttpStatus(InvalidLatitude) == HttpStatus(InvalidLongitude) == 400;
    if QueryFalsy(lat) || QueryFalsy(lon) then Err(MissingCoordinates)
    else if ReadCoordinate(lat.value, 90.0).None? then Err(InvalidLatitude)
    else if ReadCoordinate(lon.value, 180.0).None? then Err(InvalidLongitude)
    else Ok((ReadCoordinate(lat.value, 90.0).value, ReadCoordinate(lon.value, 180.0).value))
  }

  /**
   * `GET /api/weather`: the checks, then the provider's configuration, then
   * one fetch; `weather` gives the reply to that fetch for its coordinates.
   */
  function WeatherEndpoint(lat: Option<string>, lon: Option<string>, configured: bool, weather: (real, real) -> WeatherReply)
    : (r: Result<((real, real), map<string, real>), ApiError>)
    ensures CheckWeatherQuery(lat, lon).Err? ==> r == Err(CheckWeatherQuery(lat, lon).error)
    ensures CheckWeatherQuery(lat, lon).Ok? && !configured ==> r == Err(WeatherNotConfigured)
    ensures r.Ok? <==> (CheckWeatherQuery(lat, lon).Ok? && configured
      && weather(CheckWeatherQuery(lat, lon).value.0, CheckWeatherQuery(lat, lon).value.1).Sample?)
    ensures r.Ok? ==> (r.value.0 == CheckWeatherQuery(lat, lon).value
      && r.value.1 == weather(r.value.0.0, r.value.0.1).readings)
    ensures CheckWeatherQuery(lat, lon).Ok? && configured
      && weather(CheckWeatherQuery(lat, lon).value.0, CheckWeatherQuery(lat, lon).value.1).WeatherFailed?
      ==> (r == Err(WeatherFetchFailed(weather(CheckWeatherQuery(lat, lon).value.0, CheckWeatherQuery(lat, lon).value.1).message))
        && HttpStatus(r.error) == 500)
  {
    match CheckWeatherQuery(lat, lon)
    case Err(e) => Err(e)
    case Ok((la, lo)) =>
      if !configured then Err(WeatherNotConfigured)
      else
        match weather(la, lo)
        case WeatherFailed(m) =>
          ServerErrors(WeatherFetchFailed(m));
          Err(WeatherFetchFailed(m))
        case Sample(readings) => Ok(((la, lo), readings))
  }

  /**
   * The weather query's presence check reads text, so "0" passes it, where the
   * alert body's `!lat` refuses the number 0.
   */
  lemma ZeroQueryCoordinatesAccepted()
    ensures CheckWeatherQuery(Some("0"), Some("0")) == Ok((0.0, 0.0))
  {
    IntTextParsesAsFloat(0);
    assert IntText(0) == "0";
  }

  /** Whole-degree coordinates written in decimal are read back exactly. */
  lemma IntegerCoordinatesAccepted(la: int, lo: int)
    requires -90 <= la <= 90 && -180 <= lo <= 180
    ensures CheckWeatherQuery(Some(IntText(la)), Some(IntText(lo))) == Ok((la as real, lo as real))
  {
    IntTextParsesAsFloat(la);
    IntTextParsesAsFloat(lo);
  }
}
