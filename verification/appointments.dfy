/**
 The appointments service (appointments-service/app.py): `Appointment.to_dict`, the
 list/create handlers and the get/update/delete handlers over one table of
 appointments, with the strptime checks on `date` and `time`.
 */
module Appointments {
  import opened Json
  import opened Store
  import opened Strptime

  /** A row of the appointment table; its id is the table key. */
  datatype Appointment = Appointment(patientId: Json, doctorId: Json, date: string, time: string, status: Json)

  const MissingFields := "Missing required fields: patient_id, doctor_id, date, time"
  const CreateBadDate := "Invalid date format for date. Use YYYY-MM-DD"
  const CreateBadTime := "Invalid time format for time. Use HH:MM"
  const NoInput := "No input data provided"
  const UpdateBadDate := "Invalid date format. Use YYYY-MM-DD"
  const UpdateBadTime := "Invalid time format. Use HH:MM"

  /** The column default of `status`. */
  const Scheduled := JStr("Scheduled")

  /** What every row written by this service satisfies. */
  predicate ValidRow(a: Appointment) {
    IsDate(a.date) && IsTime(a.time) && a.patientId != JNull && a.doctorId != JNull
  }

  predicate Valid(t: Table<Appointment>) {
    forall id :: id in t ==> ValidRow(t[id])
  }

  /** `Appointment.to_dict`. */
  function ToDict(e: Entry<Appointment>): (o: Object)
    ensures o.Keys == {"id", "patient_id", "doctor_id", "date", "time", "status"}
    ensures o["id"] == JNum(e.id)
  {
    map[
      "id" := JNum(e.id),
      "patient_id" := e.row.patientId,
      "doctor_id" := e.row.doctorId,
      "date" := JStr(e.row.date),
      "time" := JStr(e.row.time),
      "status" := e.row.status
    ]
  }

  // ---------------------------------------------------------------------------
  // Checks on a request body
  // ---------------------------------------------------------------------------

  /** The create's presence check: a non-empty body with all four keys. */
  predicate HasRequired(body: Body) {
    body.Has("patient_id") && body.Has("doctor_id") && body.Has("date") && body.Has("time")
  }

  /** No `date` key, or a date strptime accepts. */
  predicate DatePasses(f: Object) {
    "date" !in f || (f["date"].JStr? && IsDate(f["date"].s))
  }

  /** No `time` key, or a time strptime accepts. */
  predicate TimePasses(f: Object) {
    "time" !in f || (f["time"].JStr? && IsTime(f["time"].s))
  }

  /** The body would not write NULL into the NOT NULL columns `patient_id` and `doctor_id`. */
  predicate IdsNotNull(f: Object) {
    ("patient_id" in f ==> f["patient_id"] != JNull) && ("doctor_id" in f ==> f["doctor_id"] != JNull)
  }

  /**
   The requests on which a handler raises instead of answering: strptime handed
   something other than a string (TypeError), or a commit that writes NULL into a NOT
   NULL column. Each is raised only once the checks before it have passed.
   */
  predicate RaisesOn(f: Object) {
    || ("date" in f && !f["date"].JStr?)
    || (DatePasses(f) && "time" in f && !f["time"].JStr?)
    || (DatePasses(f) && TimePasses(f) && !IdsNotNull(f))
  }

  predicate CreateRaises(body: Body) {
    HasRequired(body) && RaisesOn(body.fields)
  }

  predicate UpdateRaises(t: Table<Appointment>, id: int, body: Body) {
    id in t && !body.IsEmpty() && RaisesOn(body.fields)
  }

  /** The create requests that pass every check. */
  predicate CreateAccepts(body: Body) {
    HasRequired(body) && DatePasses(body.fields) && TimePasses(body.fields)
  }

  /**
   The status the INSERT stores: `data.get('status', 'Scheduled')`. The ORM leaves a
   None attribute out of an INSERT when its column has a default, so an explicit null
   ends up as the default too.
   */
  function StatusOnInsert(f: Object): (status: Json)
    ensures status != JNull
    ensures "status" in f && f["status"] != JNull ==> status == f["status"]
    ensures "status" !in f || f["status"] == JNull ==> status == Scheduled
  {
    if "status" in f && f["status"] != JNull then f["status"] else Scheduled
  }

  /** The row a create stores holds the body's values, and the default status when none is given. */
  predicate BuiltFrom(a: Appointment, f: Object) {
    && "patient_id" in f && a.patientId == f["patient_id"]
    && "doctor_id" in f && a.doctorId == f["doctor_id"]
    && "date" in f && f["date"] == JStr(a.date)
    && "time" in f && f["time"] == JStr(a.time)
    && ("status" !in f || f["status"] == JNull ==> a.status == Scheduled)
    && ("status" in f && f["status"] != JNull ==> a.status == f["status"])
  }

  /** The row after a partial update: every key the body holds overwrites, the rest stay. */
  predicate Merged(prev: Appointment, f: Object, a: Appointment) {
    && Overwrites(f, "patient_id", prev.patientId, a.patientId)
    && Overwrites(f, "doctor_id", prev.doctorId, a.doctorId)
    && Overwrites(f, "date", JStr(prev.date), JStr(a.date))
    && Overwrites(f, "time", JStr(prev.time), JStr(a.time))
    && Overwrites(f, "status", prev.status, a.status)
  }

  // ---------------------------------------------------------------------------
  // Handlers
  // ---------------------------------------------------------------------------

  /**
   `AppointmentListResource.post`. `newId` is the id the database hands out; it is only
   used when a row is inserted.
   */
  function Create(t: Table<Appointment>, body: Body, newId: int): (s: Step<Appointment>)
    requires newId !in t
    requires !CreateRaises(body)
    ensures s.response.Created? <==> CreateAccepts(body)
    ensures !s.response.Created? ==> s.response.BadRequest? && s.table == t
    ensures !HasRequired(body) ==> s.response == BadRequest(MissingFields)
    ensures HasRequired(body) && !DatePasses(body.fields) ==> s.response == BadRequest(CreateBadDate)
    ensures HasRequired(body) && DatePasses(body.fields) && !TimePasses(body.fields) ==>
      s.response == BadRequest(CreateBadTime)
    ensures s.response.Created? ==>
      && s.response.entry.id == newId
      && s.table == t[newId := s.response.entry.row]
      && BuiltFrom(s.response.entry.row, body.fields)
  {
    if !HasRequired(body) then Step(BadRequest(MissingFields), t)
    else
      var f := body.fields;
      if !IsDate(f["date"].s) then Step(BadRequest(CreateBadDate), t)
      else if !IsTime(f["time"].s) then Step(BadRequest(CreateBadTime), t)
      else
        var row := Appointment(f["patient_id"], f["doctor_id"], f["date"].s, f["time"].s, StatusOnInsert(f));
        Insert(t, newId, row)
  }

  /**
   `AppointmentResource.put`. The handler assigns a valid date to the loaded row before it
   checks the time; when the time then fails it answers 400 without committing, so the
   stored row keeps its old date.
   */
  function Update(t: Table<Appointment>, id: int, body: Body): (s: Step<Appointment>)
    requires !UpdateRaises(t, id, body)
    ensures id !in t ==> s == Step(NotFound, t)
    ensures id in t && body.IsEmpty() ==> s == Step(BadRequest(NoInput), t)
    ensures s.response.Ok? <==> id in t && !body.IsEmpty() && DatePasses(body.fields) && TimePasses(body.fields)
    ensures s.response.BadRequest? ==> s.table == t
    ensures id in t && !body.IsEmpty() && !DatePasses(body.fields) ==> s.response == BadRequest(UpdateBadDate)
    ensures id in t && !body.IsEmpty() && DatePasses(body.fields) && !TimePasses(body.fields) ==>
      s.response == BadRequest(UpdateBadTime)
    ensures s.response.Ok? ==>
      && s.response.entry.id == id
      && s.table == t[id := s.response.entry.row]
      && Merged(t[id], body.fields, s.response.entry.row)
  {
    if id !in t then Step(NotFound, t)
    else if body.IsEmpty() then Step(BadRequest(NoInput), t)
    else
      var f := body.fields;
      if !DatePasses(f) then Step(BadRequest(UpdateBadDate), t)
      else
        var dated := if "date" in f then t[id].(date := f["date"].s) else t[id];
        if !TimePasses(f) then Step(BadRequest(UpdateBadTime), t)
        else
          var timed := if "time" in f then dated.(time := f["time"].s) else dated;
          var row := timed.(
            patientId := GetOr(f, "patient_id", timed.patientId),
            doctorId := GetOr(f, "doctor_id", timed.doctorId),
            status := GetOr(f, "status", timed.status));
          Replace(t, id, row)
  }

  /** `AppointmentListResource.get`: every stored appointment, serialized, once each. */
  method List(t: Table<Appointment>) returns (rows: seq<Object>)
    ensures |rows| == |t|
    ensures forall i :: 0 <= i < |rows| ==> exists id :: id in t && rows[i] == ToDict(Entry(id, t[id]))
    ensures forall id :: id in t ==> ToDict(Entry(id, t[id])) in rows
  {
    rows := ListAs(t, ToDict);
  }

  // ---------------------------------------------------------------------------
  // Properties
  // ---------------------------------------------------------------------------

  /** A created appointment is what a following get returns. */
  lemma CreateThenGet(t: Table<Appointment>, body: Body, newId: int)
    requires newId !in t && !CreateRaises(body) && CreateAccepts(body)
    ensures var s := Create(t, body, newId);
      Get(s.table, newId).response == Ok(s.response.entry)
  {
  }

  /** Every write keeps the table valid: dates and times strptime accepts, non-null ids. */
  lemma CreatePreservesValid(t: Table<Appointment>, body: Body, newId: int)
    requires Valid(t) && newId !in t && !CreateRaises(body)
    ensures Valid(Create(t, body, newId).table)
  {
  }

  lemma UpdatePreservesValid(t: Table<Appointment>, id: int, body: Body)
    requires Valid(t) && !UpdateRaises(t, id, body)
    ensures Valid(Update(t, id, body).table)
  {
  }

  lemma DeletePreservesValid(t: Table<Appointment>, id: int)
    requires Valid(t)
    ensures Valid(Delete(t, id).table)
  {
  }

  /** PUT is idempotent: repeating an update changes nothing further and answers the same. */
  lemma UpdateIsIdempotent(t: Table<Appointment>, id: int, body: Body)
    requires !UpdateRaises(t, id, body)
    ensures var s := Update(t, id, body);
      !UpdateRaises(s.table, id, body) && Update(s.table, id, body) == s
  {
    var s := Update(t, id, body);
    if s.response.Ok? {
      var s2 := Update(s.table, id, body);
      assert s2.response.entry.row == s.response.entry.row;
      assert s.table[id := s.response.entry.row] == s.table;
    }
  }

  /** Putting back what a get returned (its `to_dict`, id included) changes nothing. */
  lemma UpdateWithOwnDictIsNoOp(t: Table<Appointment>, id: int)
    requires id in t && ValidRow(t[id])
    ensures var body := Fields(ToDict(Entry(id, t[id])));
      !UpdateRaises(t, id, body) && Update(t, id, body) == Step(Ok(Entry(id, t[id])), t)
  {
    var body := Fields(ToDict(Entry(id, t[id])));
    assert !body.IsEmpty() by {
      assert "id" in body.fields;
    }
    assert t[id := t[id]] == t;
  }

  /** A create with the four required keys and no status is stored as "Scheduled". */
  lemma CreateExample(t: Table<Appointment>, newId: int)
    requires newId !in t
    ensures var body := Fields(map["patient_id" := JNum(1), "doctor_id" := JNum(2), "date" := JStr("2025-03-15"), "time" := JStr("09:30")]);
      var row := Appointment(JNum(1), JNum(2), "2025-03-15", "09:30", Scheduled);
      Create(t, body, newId) == Step(Created(Entry(newId, row)), t[newId := row])
  {
    var f := map["patient_id" := JNum(1), "doctor_id" := JNum(2), "date" := JStr("2025-03-15"), "time" := JStr("09:30")];
    assert IsDate("2025-03-15") by { AcceptedDates(); }
    assert IsTime("09:30") by { AcceptedTimes(); }
    assert HasRequired(Fields(f)) && DatePasses(f) && TimePasses(f) && IdsNotNull(f);
    var s := Create(t, Fields(f), newId);
    assert s.response.Created?;
    var row := s.response.entry.row;
    assert BuiltFrom(row, f);
    assert row == Appointment(JNum(1), JNum(2), "2025-03-15", "09:30", Scheduled);
  }

  /** A create with a day-first date is refused for its date, and nothing is stored. */
  lemma CreateDayFirstRefused(t: Table<Appointment>, newId: int)
    requires newId !in t
    ensures var body := Fields(map["patient_id" := JNum(1), "doctor_id" := JNum(2), "date" := JStr("15-03-2025"), "time" := JStr("09:30")]);
      Create(t, body, newId) == Step(BadRequest(CreateBadDate), t)
  {
    RefusedDateShapes();
  }

  /** An update to February 30th is refused, also when its time is bad too, and the row keeps its date. */
  lemma UpdateImpossibleDateRefused(t: Table<Appointment>, id: int)
    requires id in t
    ensures Update(t, id, Fields(map["date" := JStr("2025-02-30")])) == Step(BadRequest(UpdateBadDate), t)
    ensures Update(t, id, Fields(map["date" := JStr("2025-02-30"), "time" := JStr("24:00")])) == Step(BadRequest(UpdateBadDate), t)
  {
    RefusedCalendarDates();
  }

  /** A create body with both ids and the given date and time strings. */
  function Request(date: string, time: string): Body {
    Fields(map["patient_id" := JNum(1), "doctor_id" := JNum(2), "date" := JStr(date), "time" := JStr(time)])
  }

  /** A create missing a required key, or with a `null` body, is refused before any format check. */
  lemma CreateMissingKeyRefused(t: Table<Appointment>, newId: int)
    requires newId !in t
    ensures Create(t, NoBody, newId) == Step(BadRequest(MissingFields), t)
    ensures Create(t, Fields(map["patient_id" := JNum(1), "doctor_id" := JNum(2), "date" := JStr("2025-02-30")]), newId)
      == Step(BadRequest(MissingFields), t)
  {
    var f := map["patient_id" := JNum(1), "doctor_id" := JNum(2), "date" := JStr("2025-02-30")];
    assert "time" !in f;
  }

  /** A create on February 30th is refused for its date, also when its time is bad too. */
  lemma CreateImpossibleDateRefused(t: Table<Appointment>, newId: int)
    requires newId !in t
    ensures Create(t, Request("2025-02-30", "09:30"), newId) == Step(BadRequest(CreateBadDate), t)
    ensures Create(t, Request("2025-02-30", "24:00"), newId) == Step(BadRequest(CreateBadDate), t)
  {
    assert !IsDate("2025-02-30") by { RefusedCalendarDates(); }
  }

  /** A create at hour 24 or minute 60 is refused for its time, and nothing is stored. */
  lemma CreateOutOfRangeTimeRefused(t: Table<Appointment>, newId: int)
    requires newId !in t
    ensures Create(t, Request("2025-03-15", "24:00"), newId) == Step(BadRequest(CreateBadTime), t)
    ensures Create(t, Request("2025-03-15", "09:60"), newId) == Step(BadRequest(CreateBadTime), t)
  {
    assert IsDate("2025-03-15") by { AcceptedDates(); }
    assert !IsTime("24:00") && !IsTime("09:60") by { RefusedTimes(); }
  }
}
