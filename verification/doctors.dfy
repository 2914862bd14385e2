/**
 The doctors service (doctors-service/app.py): `Doctor.to_dict`, the list/create
 handlers and the get/update/delete handlers over one table of doctors. The only check
 is that `name` and `specialty` are present.
 */
module Doctors {
  import opened Json
  import opened Store

  /** A row of the doctor table; its id is the table key. */
  datatype Doctor = Doctor(name: Json, specialty: Json, availability: Json)

  const Required := "Name and specialty are required"
  const NoInput := "No input data provided"

  /** What every row written by this service satisfies: the NOT NULL columns hold a value. */
  predicate ValidRow(d: Doctor) {
    d.name != JNull && d.specialty != JNull
  }

  predicate Valid(t: Table<Doctor>) {
    forall id :: id in t ==> ValidRow(t[id])
  }

  /** `Doctor.to_dict`. */
  function ToDict(e: Entry<Doctor>): (o: Object)
    ensures o.Keys == {"id", "name", "specialty", "availability"}
    ensures o["id"] == JNum(e.id)
  {
    map[
      "id" := JNum(e.id),
      "name" := e.row.name,
      "specialty" := e.row.specialty,
      "availability" := e.row.availability
    ]
  }

  /** The create's presence check: a non-empty body holding `name` and `specialty`. */
  predicate HasRequired(body: Body) {
    body.Has("name") && body.Has("specialty")
  }

  /** The body would not write NULL into the NOT NULL columns `name` and `specialty`. */
  predicate NamesNotNull(f: Object) {
    ("name" in f ==> f["name"] != JNull) && ("specialty" in f ==> f["specialty"] != JNull)
  }

  /** The create requests whose commit raises: NULL for `name` or `specialty`. */
  predicate CreateRaises(body: Body) {
    HasRequired(body) && !NamesNotNull(body.fields)
  }

  /** The update requests whose commit raises: NULL for `name` or `specialty`. */
  predicate UpdateRaises(t: Table<Doctor>, id: int, body: Body) {
    id in t && !body.IsEmpty() && !NamesNotNull(body.fields)
  }

  /** The row a create stores holds the body's values; `availability` is null when absent. */
  predicate BuiltFrom(d: Doctor, f: Object) {
    && "name" in f && d.name == f["name"]
    && "specialty" in f && d.specialty == f["specialty"]
    && ("availability" in f ==> d.availability == f["availability"])
    && ("availability" !in f ==> d.availability == JNull)
  }

  /** The row after a partial update: every key the body holds overwrites, the rest stay. */
  predicate Merged(prev: Doctor, f: Object, d: Doctor) {
    && Overwrites(f, "name", prev.name, d.name)
    && Overwrites(f, "specialty", prev.specialty, d.specialty)
    && Overwrites(f, "availability", prev.availability, d.availability)
  }

  /** `DoctorListResource.post`; `newId` is the id the database hands out. */
  function Create(t: Table<Doctor>, body: Body, newId: int): (s: Step<Doctor>)
    requires newId !in t
    requires !CreateRaises(body)
    ensures s.response.Created? <==> HasRequired(body)
    ensures !HasRequired(body) ==> s == Step(BadRequest(Required), t)
    ensures s.response.Created? ==>
      && s.response.entry.id == newId
      && s.table == t[newId := s.response.entry.row]
      && BuiltFrom(s.response.entry.row, body.fields)
  {
    if !HasRequired(body) then Step(BadRequest(Required), t)
    else
      var f := body.fields;
      Insert(t, newId, Doctor(f["name"], f["specialty"], GetOr(f, "availability", JNull)))
  }

  /** `DoctorResource.put`: 404, 400 on an empty body, otherwise a partial update. */
  function Update(t: Table<Doctor>, id: int, body: Body): (s: Step<Doctor>)
    requires !UpdateRaises(t, id, body)
    ensures id !in t ==> s == Step(NotFound, t)
    ensures id in t && body.IsEmpty() ==> s == Step(BadRequest(NoInput), t)
    ensures s.response.Ok? <==> id in t && !body.IsEmpty()
    ensures s.response.Ok? ==>
      && s.response.entry.id == id
      && s.table == t[id := s.response.entry.row]
      && Merged(t[id], body.fields, s.response.entry.row)
  {
    if id !in t then Step(NotFound, t)
    else if body.IsEmpty() then Step(BadRequest(NoInput), t)
    else
      var f := body.fields;
      var d := t[id];
      Replace(t, id, Doctor(GetOr(f, "name", d.name), GetOr(f, "specialty", d.specialty), GetOr(f, "availability", d.availability)))
  }

  /** `DoctorListResource.get`: every stored doctor, serialized, once each. */
  method List(t: Table<Doctor>) returns (rows: seq<Object>)
    ensures |rows| == |t|
    ensures forall i :: 0 <= i < |rows| ==> exists id :: id in t && rows[i] == ToDict(Entry(id, t[id]))
    ensures forall id :: id in t ==> ToDict(Entry(id, t[id])) in rows
  {
    rows := ListAs(t, ToDict);
  }

  /** A created doctor is what a following get returns. */
  lemma CreateThenGet(t: Table<Doctor>, body: Body, newId: int)
    requires newId !in t && !CreateRaises(body) && HasRequired(body)
    ensures var s := Create(t, body, newId);
      Get(s.table, newId).response == Ok(s.response.entry)
  {
  }

  /** Presence is the whole check: an empty name and an empty specialty are stored as given. */
  lemma EmptyNamesAccepted(t: Table<Doctor>, newId: int)
    requires newId !in t
    ensures var body := Fields(map["name" := JStr(""), "specialty" := JStr("")]);
      Create(t, body, newId) == Step(Created(Entry(newId, Doctor(JStr(""), JStr(""), JNull))),
                                     t[newId := Doctor(JStr(""), JStr(""), JNull)])
  {
  }

  /** Every write keeps `name` and `specialty` non-null. */
  lemma CreatePreservesValid(t: Table<Doctor>, body: Body, newId: int)
    requires Valid(t) && newId !in t && !CreateRaises(body)
    ensures Valid(Create(t, body, newId).table)
  {
  }

  lemma UpdatePreservesValid(t: Table<Doctor>, id: int, body: Body)
    requires Valid(t) && !UpdateRaises(t, id, body)
    ensures Valid(Update(t, id, body).table)
  {
  }

  /** PUT is idempotent: repeating an update changes nothing further and answers the same. */
  lemma UpdateIsIdempotent(t: Table<Doctor>, id: int, body: Body)
    requires !UpdateRaises(t, id, body)
    ensures var s := Update(t, id, body);
      !UpdateRaises(s.table, id, body) && Update(s.table, id, body) == s
  {
    var s := Update(t, id, body);
    if s.response.Ok? {
      assert s.table[id := s.response.entry.row] == s.table;
    }
  }

  /** Putting back what a get returned (its `to_dict`, id included) changes nothing. */
  lemma UpdateWithOwnDictIsNoOp(t: Table<Doctor>, id: int)
    requires id in t && ValidRow(t[id])
    ensures var body := Fields(ToDict(Entry(id, t[id])));
      !UpdateRaises(t, id, body) && Update(t, id, body) == Step(Ok(Entry(id, t[id])), t)
  {
    var body := Fields(ToDict(Entry(id, t[id])));
    assert "id" in body.fields;
    assert t[id := t[id]] == t;
  }
}
