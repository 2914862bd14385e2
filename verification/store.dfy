/**
 The part the three services share: one table of rows keyed by an integer id, and the
 outcome of a request against it. `get_or_404`, `session.add`/`commit`,
 `session.delete`/`commit` and `query.all()` become the pure operations below; a
 handler returns its response together with the table as it stands after the request.
 */
module Store {

  /** The table: each row under the id the database gave it. */
  type Table<R> = map<int, R>

  /** A row together with its id, as a handler hands it back. */
  datatype Entry<R> = Entry(id: int, row: R)

  /** The HTTP outcome of a request: 200 with a row, 201 with a row, 204, 404 or 400. */
  datatype Response<R> =
    | Ok(entry: Entry<R>)
    | Created(entry: Entry<R>)
    | Deleted
    | NotFound
    | BadRequest(message: string)

  /** A response and the table after the request (rolled back unless committed). */
  datatype Step<R> = Step(response: Response<R>, table: Table<R>)

  /** `query.get_or_404(id)` followed by `to_dict`: the stored row, or 404; never a write. */
  function Get<R>(t: Table<R>, id: int): (s: Step<R>)
    ensures s.table == t
    ensures s.response.Ok? <==> id in t
    ensures s.response.Ok? ==> s.response.entry.id == id && s.response.entry.row == t[id]
    ensures !s.response.Ok? ==> s.response == NotFound
  {
    if id in t then Step(Ok(Entry(id, t[id])), t) else Step(NotFound, t)
  }

  /** `get_or_404`, then `session.delete` and `commit`: exactly that one row goes. */
  function Delete<R>(t: Table<R>, id: int): (s: Step<R>)
    ensures id !in t ==> s == Step(NotFound, t)
    ensures id in t ==> s.response == Deleted
    ensures s.table.Keys == t.Keys - {id}
    ensures forall k :: k in s.table ==> s.table[k] == t[k]
    ensures id in t ==> |s.table| == |t| - 1
  {
    if id in t then Step(Deleted, t - {id}) else Step(NotFound, t)
  }

  /** `session.add` and `commit` of a new row under an id the table does not hold yet. */
  function Insert<R>(t: Table<R>, id: int, row: R): (s: Step<R>)
    requires id !in t
    ensures s.response == Created(Entry(id, row))
    ensures s.table.Keys == t.Keys + {id} && s.table[id] == row
    ensures forall k :: k in t ==> s.table[k] == t[k]
    ensures |s.table| == |t| + 1
  {
    Step(Created(Entry(id, row)), t[id := row])
  }

  /** `commit` of changes made to the row already stored under `id`. */
  function Replace<R>(t: Table<R>, id: int, row: R): (s: Step<R>)
    requires id in t
    ensures s.response == Ok(Entry(id, row))
    ensures s.table.Keys == t.Keys && s.table[id] == row
    ensures forall k :: k in t && k != id ==> s.table[k] == t[k]
  {
    Step(Ok(Entry(id, row)), t[id := row])
  }

  /**
   `query.all()`: every stored row exactly once. There is no ORDER BY, so the order is
   the database's; the method picks ids in an unspecified order.
   */
  method List<R>(t: Table<R>) returns (rows: seq<Entry<R>>)
    ensures |rows| == |t|
    ensures forall i :: 0 <= i < |rows| ==> rows[i].id in t && rows[i].row == t[rows[i].id]
    ensures forall i, j :: 0 <= i < j < |rows| ==> rows[i].id != rows[j].id
    ensures forall id :: id in t ==> Entry(id, t[id]) in rows
  {
    rows := [];
    var rest := t.Keys;
    while |rest| > 0
      invariant rest <= t.Keys
      invariant |rows| + |rest| == |t|
      invariant forall i :: 0 <= i < |rows| ==> rows[i].id in t && rows[i].row == t[rows[i].id]
      invariant forall i :: 0 <= i < |rows| ==> rows[i].id in t.Keys - rest
      invariant forall i, j :: 0 <= i < j < |rows| ==> rows[i].id != rows[j].id
      invariant forall id :: id in t && id !in rest ==> Entry(id, t[id]) in rows
      decreases rest
    {
      var k := Pick(rest);
      rows := rows + [Entry(k, t[k])];
      rest := rest - {k};
    }
  }

  /**
   `[r.to_dict() for r in query.all()]`: each stored row, passed through `f`. The contract
   pins multiplicities only when `f` tells rows apart; every `to_dict` here does, since it
   carries the row's id under "id".
   */
  method ListAs<R, O>(t: Table<R>, f: Entry<R> -> O) returns (out: seq<O>)
    ensures |out| == |t|
    ensures forall i :: 0 <= i < |out| ==> exists id :: id in t && out[i] == f(Entry(id, t[id]))
    ensures forall id :: id in t ==> f(Entry(id, t[id])) in out
  {
    var entries := List(t);
    out := seq(|entries|, i requires 0 <= i < |entries| => f(entries[i]));
    forall id | id in t
      ensures f(Entry(id, t[id])) in out
    {
      var i :| 0 <= i < |entries| && entries[i] == Entry(id, t[id]);
      assert out[i] == f(Entry(id, t[id]));
    }
    forall i | 0 <= i < |out|
      ensures exists id :: id in t && out[i] == f(Entry(id, t[id]))
    {
      assert entries[i] == Entry(entries[i].id, t[entries[i].id]);
    }
  }

  /** Some id of a non-empty set of ids. */
  method Pick(ids: set<int>) returns (k: int)
    requires |ids| > 0
    ensures k in ids
  {
    NonEmptyHasMember(ids);
    k :| k in ids;
  }

  lemma NonEmptyHasMember(ids: set<int>)
    requires |ids| > 0
    ensures exists k :: k in ids
  {
    if forall k :: k !in ids {
      assert false;
    }
  }

  /** After a delete the id is gone: a following get is 404. */
  lemma DeleteThenGet<R>(t: Table<R>, id: int)
    ensures Get(Delete(t, id).table, id).response == NotFound
  {
  }

  /** After an insert a get of the new id returns the inserted row. */
  lemma InsertThenGet<R>(t: Table<R>, id: int, row: R)
    requires id !in t
    ensures Get(Insert(t, id, row).table, id).response == Ok(Entry(id, row))
  {
  }

  /**
   Two creates in a row, each under an id the table does not hold yet, add two rows that
   both stay retrievable and leave every earlier row alone.
   */
  lemma SuccessiveInsertsKeepEachRow<R>(t: Table<R>, id1: int, row1: R, id2: int, row2: R)
    requires id1 !in t && id2 !in Insert(t, id1, row1).table
    ensures var t2 := Insert(Insert(t, id1, row1).table, id2, row2).table;
      && t2.Keys == t.Keys + {id1, id2} && |t2| == |t| + 2
      && Get(t2, id1).response == Ok(Entry(id1, row1))
      && Get(t2, id2).response == Ok(Entry(id2, row2))
      && (forall k :: k in t ==> t2[k] == t[k])
  {
  }
}
