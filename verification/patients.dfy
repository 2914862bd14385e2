/**
 The patients service (patients-service/app.py): `Patient.to_dict`, the list/create
 handlers and the get/update/delete handlers over one table of patients. The only check
 is that `name` is present; the update has no empty-body guard.
 */
module Patients {
  import opened Json
  import opened Store

  /** A row of the patient table; its id is the table key. `dob` is never checked. */
  datatype Patient = Patient(name: Json, dob: Json, history: Json)

  const NameRequired := "Name is required"

  /** What every row written by this service satisfies: the NOT NULL column holds a value. */
  predicate ValidRow(p: Patient) {
    p.name != JNull
  }

  predicate Valid(t: Table<Patient>) {
    forall id :: id in t ==> ValidRow(t[id])
  }

  /** `Patient.to_dict`. */
  function ToDict(e: Entry<Patient>): (o: Object)
    ensures o.Keys == {"id", "name", "dob", "history"}
    ensures o["id"] == JNum(e.id)
  {
    map[
      "id" := JNum(e.id),
      "name" := e.row.name,
      "dob" := e.row.dob,
      "history" := e.row.history
    ]
  }

  /** The body would not write NULL into the NOT NULL column `name`. */
  predicate NameNotNull(f: Object) {
    "name" in f ==> f["name"] != JNull
  }

  /** The create requests whose commit raises: NULL for `name`. */
  predicate CreateRaises(body: Body) {
    body.Has("name") && !NameNotNull(body.fields)
  }

  /**
   The update requests that raise: no body at all (`data.get` on None), or NULL for
   `name` at commit. Both come after the 404 check.
   */
  predicate UpdateRaises(t: Table<Patient>, id: int, body: Body) {
    id in t && (body.NoBody? || !NameNotNull(body.fields))
  }

  /** The row a create stores holds the body's values; `dob` and `history` are null when absent. */
  predicate BuiltFrom(p: Patient, f: Object) {
    && "name" in f && p.name == f["name"]
    && ("dob" in f ==> p.dob == f["dob"]) && ("dob" !in f ==> p.dob == JNull)
    && ("history" in f ==> p.history == f["history"]) && ("history" !in f ==> p.history == JNull)
  }

  /** The row after a partial update: every key the body holds overwrites, the rest stay. */
  predicate Merged(prev: Patient, f: Object, p: Patient) {
    && Overwrites(f, "name", prev.name, p.name)
    && Overwrites(f, "dob", prev.dob, p.dob)
    && Overwrites(f, "history", prev.history, p.history)
  }

  /** `PatientListResource.post`; `newId` is the id the database hands out. */
  function Create(t: Table<Patient>, body: Body, newId: int): (s: Step<Patient>)
    requires newId !in t
    requires !CreateRaises(body)
    ensures s.response.Created? <==> body.Has("name")
    ensures !body.Has("name") ==> s == Step(BadRequest(NameRequired), t)
    ensures s.response.Created? ==>
      && s.response.entry.id == newId
      && s.table == t[newId := s.response.entry.row]
      && BuiltFrom(s.response.entry.row, body.fields)
  {
    if !body.Has("name") then Step(BadRequest(NameRequired), t)
    else
      var f := body.fields;
      Insert(t, newId, Patient(f["name"], GetOr(f, "dob", JNull), GetOr(f, "history", JNull)))
  }

  /** `PatientResource.put`: 404, otherwise a partial update; an empty object is accepted. */
  function Update(t: Table<Patient>, id: int, body: Body): (s: Step<Patient>)
    requires !UpdateRaises(t, id, body)
    ensures id !in t ==> s == Step(NotFound, t)
    ensures s.response.Ok? <==> id in t
    ensures s.response.Ok? ==>
      && s.response.entry.id == id
      && s.table == t[id := s.response.entry.row]
      && Merged(t[id], body.fields, s.response.entry.row)
  {
    if id !in t then Step(NotFound, t)
    else
      var f := body.fields;
      var p := t[id];
      Replace(t, id, Patient(GetOr(f, "name", p.name), GetOr(f, "dob", p.dob), GetOr(f, "history", p.history)))
  }

  /** `PatientListResource.get`: every stored patient, serialized, once each. */
  method List(t: Table<Patient>) returns (rows: seq<Object>)
    ensures |rows| == |t|
    ensures forall i :: 0 <= i < |rows| ==> exists id :: id in t && rows[i] == ToDict(Entry(id, t[id]))
    ensures forall id :: id in t ==> ToDict(Entry(id, t[id])) in rows
  {
    rows := ListAs(t, ToDict);
  }

  /** A created patient is what a following get returns. */
  lemma CreateThenGet(t: Table<Patient>, body: Body, newId: int)
    requires newId !in t && !CreateRaises(body) && body.Has("name")
    ensures var s := Create(t, body, newId);
      Get(s.table, newId).response == Ok(s.response.entry)
  {
  }

  /** `update(id, {})` answers with the stored row and changes nothing. */
  lemma EmptyUpdateIsNoOp(t: Table<Patient>, id: int)
    requires id in t
    ensures Update(t, id, Fields(map[])) == Step(Ok(Entry(id, t[id])), t)
  {
    assert t[id := t[id]] == t;
  }

  /** `dob` is stored as given: a create with a value that is no date at all succeeds. */
  lemma DobNotChecked(t: Table<Patient>, newId: int)
    requires newId !in t
    ensures var body := Fields(map["name" := JStr("Ana"), "dob" := JStr("yesterday")]);
      Create(t, body, newId) == Step(Created(Entry(newId, Patient(JStr("Ana"), JStr("yesterday"), JNull))),
                                     t[newId := Patient(JStr("Ana"), JStr("yesterday"), JNull)])
  {
  }

  /** Every write keeps `name` non-null. */
  lemma CreatePreservesValid(t: Table<Patient>, body: Body, newId: int)
    requires Valid(t) && newId !in t && !CreateRaises(body)
    ensures Valid(Create(t, body, newId).table)
  {
  }

  lemma UpdatePreservesValid(t: Table<Patient>, id: int, body: Body)
    requires Valid(t) && !UpdateRaises(t, id, body)
    ensures Valid(Update(t, id, body).table)
  {
  }

  /** PUT is idempotent: repeating an update changes nothing further and answers the same. */
  lemma UpdateIsIdempotent(t: Table<Patient>, id: int, body: Body)
    requires !UpdateRaises(t, id, body)
    ensures var s := Update(t, id, body);
      !UpdateRaises(s.table, id, body) && Update(s.table, id, body) == s
  {
    var s := Update(t, id, body);
    if s.response.Ok? {
      assert s.table[id := s.response.entry.row] == s.table;
    }
  }

  /** Putting back what a get returned (its `to_dict`, id included) changes nothing. */
  lemma UpdateWithOwnDictIsNoOp(t: Table<Patient>, id: int)
    requires id in t && ValidRow(t[id])
    ensures var body := Fields(ToDict(Entry(id, t[id])));
      !UpdateRaises(t, id, body) && Update(t, id, body) == Step(Ok(Entry(id, t[id])), t)
  {
    assert t[id := t[id]] == t;
  }
}
