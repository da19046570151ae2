/** The table endpoint (`app/api/table/route.ts`): a module-level list of rows
    read by GET and changed in place by POST, PUT and DELETE. Each handler is
    given here twice: as a pure function from the old list and the parsed
    request to the response and the new list, and as a method of `Store` that
    changes the list step by step as the source does and is proved to agree
    with that function. The lemmas state what each handler promises. */
module RecordStore {
  import opened Rows

  /** What one handler produces: its response and the list afterwards. */
  datatype Step = Step(response: Response, rows: seq<Row>)

  /** The body of a PUT request, `{ id, newData }`. */
  datatype PutBody = PutBody(id: Field, newData: Row)

  // ---------------------------------------------------------------------------
  // Lookup and validation

  /** `findIndex((item) => item.id === id)`: the first position whose id
      matches, or -1 when none does. */
  function FirstIndex(s: seq<Row>, id: Field): (i: int)
    ensures -1 <= i < |s|
    ensures i == -1 <==> forall k :: 0 <= k < |s| ==> s[k].id != id
    ensures 0 <= i ==> s[i].id == id && forall k :: 0 <= k < i ==> s[k].id != id
  {
    if |s| == 0 then -1
    else if s[0].id == id then 0
    else
      var j := FirstIndex(s[1..], id);
      if j == -1 then -1 else j + 1
  }

  /** Some row carries the id. */
  predicate Has(s: seq<Row>, id: Field) {
    exists k :: 0 <= k < |s| && s[k].id == id
  }

  /** No two rows share an id. The endpoint never checks this. */
  predicate Unique(s: seq<Row>) {
    forall i, j :: 0 <= i < j < |s| ==> s[i].id != s[j].id
  }

  /** `validateData`: throws "Incomplete data" unless name, age, gender, city,
      birthDate and education are all truthy. */
  function ValidateData(d: Row): (err: Option<string>)
    ensures err == None <==> Complete(d, UpdateKeys)
    ensures err != None ==> err == Some(IncompleteData)
  {
    if !Given(d.name) || !Given(d.age) || !Given(d.gender) || !Given(d.city)
       || !Given(d.birthDate) || !Given(d.education)
    then Some(IncompleteData)
    else None
  }

  /** The create handler's own check, which leaves education out. */
  function CreateFieldsMissing(d: Row): (missing: bool)
    ensures missing <==> !Complete(d, CreateKeys)
  {
    !Given(d.name) || !Given(d.age) || !Given(d.gender) || !Given(d.city) || !Given(d.birthDate)
  }

  // ---------------------------------------------------------------------------
  // The handlers as functions of the old list

  /** GET: the whole list, in order, with the default status. */
  function HandleGet(rows: seq<Row>): Response {
    Reply(ListBody(rows))
  }

  /** POST: 400 when a required property is falsy; otherwise the submitted
      object, its id overwritten by the generated one, is appended and returned
      with 201. `freshId` stands for `Math.random().toString(36).substr(2, 9)`. */
  function HandlePost(rows: seq<Row>, req: Parsed<Row>, freshId: string): Step {
    match req
    case Threw(m) => Step(Reply(ErrorBody(m)), rows)
    case Parsed(d) =>
      if CreateFieldsMissing(d) then Step(Response(400, ErrorBody(AllFieldsRequired)), rows)
      else
        var row := d.(id := Some(Str(freshId)));
        Step(Response(201, RowBody(row)), rows + [row])
  }

  /** PUT: validate, then find the first row with the id and overlay the
      submitted properties on it; the response echoes the submitted object. */
  function HandlePut(rows: seq<Row>, req: Parsed<PutBody>): Step {
    match req
    case Threw(m) => Step(Reply(ErrorBody(m)), rows)
    case Parsed(PutBody(id, newData)) =>
      match ValidateData(newData)
      case Some(m) => Step(Reply(ErrorBody(m)), rows)
      case None =>
        var i := FirstIndex(rows, id);
        if i != -1 then Step(Reply(RowBody(newData)), rows[i := Merge(rows[i], newData)])
        else Step(Reply(ErrorBody(RowNotFound)), rows)
  }

  /** DELETE: splice out the first row with the id and answer 204 with the rest. */
  function HandleDelete(rows: seq<Row>, req: Parsed<Field>): Step {
    match req
    case Threw(m) => Step(Reply(ErrorBody(m)), rows)
    case Parsed(id) =>
      var i := FirstIndex(rows, id);
      if i != -1 then
        var rest := rows[..i] + rows[i + 1..];
        Step(Response(204, ListBody(rest)), rest)
      else Step(Reply(ErrorBody(RowNotFound)), rows)
  }

  // ---------------------------------------------------------------------------
  // The module-level array and the handlers that change it

  class Store {
    /** `mockdata` */
    var rows: seq<Row>

    /** The list as loaded from the seed data when the module is first loaded. */
    constructor (seed: seq<Row>)
      ensures rows == seed
    {
      rows := seed;
    }

    /** The linear search behind `mockdata.findIndex`. */
    method FindIndex(id: Field) returns (index: int)
      ensures index == FirstIndex(rows, id)
      ensures index == -1 <==> !Has(rows, id)
      ensures 0 <= index ==> index < |rows| && rows[index].id == id
    {
      index := 0;
      while index < |rows|
        invariant 0 <= index <= |rows|
        invariant forall k :: 0 <= k < index ==> rows[k].id != id
      {
        if rows[index].id == id {
          return;
        }
        index := index + 1;
      }
      index := -1;
    }

    method Get() returns (r: Response)
      ensures r == HandleGet(rows)
      ensures r.status == DefaultStatus && r.body == ListBody(rows)
    {
      r := Reply(ListBody(rows));
    }

    method Post(req: Parsed<Row>, freshId: string) returns (r: Response)
      modifies this
      ensures HandlePost(old(rows), req, freshId) == Step(r, rows)
    {
      match req
      case Threw(m) =>
        r := Reply(ErrorBody(m));
      case Parsed(newRowData) =>
        if CreateFieldsMissing(newRowData) {
          r := Response(400, ErrorBody(AllFieldsRequired));
          return;
        }
        var row := newRowData.(id := Some(Str(freshId)));
        rows := rows + [row];
        r := Response(201, RowBody(row));
    }

    method Put(req: Parsed<PutBody>) returns (r: Response)
      modifies this
      ensures HandlePut(old(rows), req) == Step(r, rows)
    {
      match req
      case Threw(m) =>
        r := Reply(ErrorBody(m));
      case Parsed(PutBody(id, newData)) =>
        var invalid := ValidateData(newData);
        if invalid.Some? {
          r := Reply(ErrorBody(invalid.value));
          return;
        }
        var index := FindIndex(id);
        if index != -1 {
          rows := rows[index := Merge(rows[index], newData)];
          r := Reply(RowBody(newData));
        } else {
          r := Reply(ErrorBody(RowNotFound));
        }
    }

    method Delete(req: Parsed<Field>) returns (r: Response)
      modifies this
      ensures HandleDelete(old(rows), req) == Step(r, rows)
    {
      match req
      case Threw(m) =>
        r := Reply(ErrorBody(m));
      case Parsed(id) =>
        var index := FindIndex(id);
        if index != -1 {
          rows := rows[..index] + rows[index + 1..];
          r := Response(204, ListBody(rows));
        } else {
          r := Reply(ErrorBody(RowNotFound));
        }
    }
  }

  // ---------------------------------------------------------------------------
  // What the handlers promise

  /** An error thrown while reading the request is answered with its message
      and the default status, and the list is untouched. */
  lemma ThrownRequestsChangeNothing(rows: seq<Row>, m: string, freshId: string)
    ensures HandlePost(rows, Threw(m), freshId) == Step(Response(200, ErrorBody(m)), rows)
    ensures HandlePut(rows, Threw(m)) == Step(Response(200, ErrorBody(m)), rows)
    ensures HandleDelete(rows, Threw(m)) == Step(Response(200, ErrorBody(m)), rows)
  {
  }

  /** POST is refused exactly when one of name, age, gender, city or birthDate
      is falsy; a refusal is a 400 "All fields are required" that leaves the
      list as it was. */
  lemma PostRefusal(rows: seq<Row>, d: Row, freshId: string)
    ensures HandlePost(rows, Parsed(d), freshId).response.status == 400
            <==> !Complete(d, CreateKeys)
    ensures !Complete(d, CreateKeys) ==>
              HandlePost(rows, Parsed(d), freshId) == Step(Response(400, ErrorBody(AllFieldsRequired)), rows)
  {
  }

  /** Falsy values count as missing: `age: 0` and an empty name are refused,
      while a missing education is accepted on create. */
  lemma PostTruthiness(rows: seq<Row>, d: Row, freshId: string)
    ensures d.age == Some(Num(0)) ==> HandlePost(rows, Parsed(d), freshId).response.status == 400
    ensures d.name == Some(Str("")) ==> HandlePost(rows, Parsed(d), freshId).response.status == 400
    ensures Complete(d, CreateKeys) && d.education == None ==>
              HandlePost(rows, Parsed(d), freshId).response.status == 201
  {
    assert Age in CreateKeys && Name in CreateKeys;
  }

  /** A successful POST appends exactly one row, last, keeps every earlier row,
      stores the submitted properties verbatim except the id, which is the
      generated one, and returns that row with 201. */
  lemma PostAppends(rows: seq<Row>, d: Row, freshId: string)
    requires Complete(d, CreateKeys)
    ensures var st := HandlePost(rows, Parsed(d), freshId);
            var row := st.rows[|rows|];
            |st.rows| == |rows| + 1
            && st.rows[..|rows|] == rows
            && st.response == Response(201, RowBody(row))
            && row.id == Some(Str(freshId))
            && forall k :: k != Id ==> Prop(row, k) == Prop(d, k)
  {
    var st := HandlePost(rows, Parsed(d), freshId);
    assert st.rows == rows + [d.(id := Some(Str(freshId)))];
  }

  /** The created row is in the list GET returns afterwards. */
  lemma PostThenGet(rows: seq<Row>, d: Row, freshId: string)
    requires Complete(d, CreateKeys)
    ensures var st := HandlePost(rows, Parsed(d), freshId);
            st.response.body.RowBody? && HandleGet(st.rows).body.rows == rows + [st.response.body.row]
  {
  }

  /** The generated id is never checked: uniqueness survives a POST when the
      new id is not yet in use, and is lost when it is. */
  lemma PostUniqueness(rows: seq<Row>, d: Row, freshId: string)
    requires Unique(rows) && Complete(d, CreateKeys)
    ensures Unique(HandlePost(rows, Parsed(d), freshId).rows) <==> !Has(rows, Some(Str(freshId)))
  {
    var st := HandlePost(rows, Parsed(d), freshId);
    var n := |rows|;
    assert st.rows == rows + [d.(id := Some(Str(freshId)))];
    if Has(rows, Some(Str(freshId))) {
      var k :| 0 <= k < n && rows[k].id == Some(Str(freshId));
      assert st.rows[k].id == st.rows[n].id;
    }
  }

  /** PUT validates before it looks: incomplete data is refused with
      "Incomplete data" and no change, whether or not the id exists. */
  lemma PutValidatesFirst(rows: seq<Row>, id: Field, newData: Row)
    requires !Complete(newData, UpdateKeys)
    ensures HandlePut(rows, Parsed(PutBody(id, newData))) == Step(Reply(ErrorBody(IncompleteData)), rows)
  {
  }

  /** A complete PUT for an id no row has answers "Row not found" and changes nothing. */
  lemma PutUnknownId(rows: seq<Row>, id: Field, newData: Row)
    requires Complete(newData, UpdateKeys) && !Has(rows, id)
    ensures HandlePut(rows, Parsed(PutBody(id, newData))) == Step(Reply(ErrorBody(RowNotFound)), rows)
  {
  }

  /** A successful PUT rewrites only the first row with the id, to that row
      overlaid by every submitted property (the id too, when submitted); the
      length and every other row stay, and the body is the submitted object. */
  lemma PutMergesFirstMatch(rows: seq<Row>, id: Field, newData: Row)
    requires Complete(newData, UpdateKeys) && Has(rows, id)
    ensures var st := HandlePut(rows, Parsed(PutBody(id, newData)));
            var i := FirstIndex(rows, id);
            0 <= i < |rows| && rows[i].id == id
            && (forall j :: 0 <= j < i ==> rows[j].id != id)
            && st.response == Reply(RowBody(newData))
            && |st.rows| == |rows|
            && (forall j :: 0 <= j < |rows| && j != i ==> st.rows[j] == rows[j])
            && forall k :: Prop(st.rows[i], k) == if Prop(newData, k).Some? then Prop(newData, k) else Prop(rows[i], k)
  {
  }

  /** Repeating a PUT with the same body leaves the list as one PUT left it,
      provided the repeat still addresses the same row: the submitted object
      carries no id or the addressed one, or ids are unique (then a changed id
      is not found again). */
  lemma PutTwice(rows: seq<Row>, id: Field, newData: Row)
    requires newData.id == None || newData.id == id || Unique(rows)
    ensures var once := HandlePut(rows, Parsed(PutBody(id, newData)));
            HandlePut(once.rows, Parsed(PutBody(id, newData))).rows == once.rows
  {
    var once := HandlePut(rows, Parsed(PutBody(id, newData)));
    if Complete(newData, UpdateKeys) && Has(rows, id) {
      var i := FirstIndex(rows, id);
      MergeIdempotent(rows[i], newData);
      if newData.id == None || newData.id == id {
        assert once.rows[i].id == id;
        assert forall k :: 0 <= k < i ==> once.rows[k] == rows[k];
        assert FirstIndex(once.rows, id) == i;
      } else {
        assert once.rows[i].id == newData.id != id;
        forall k | 0 <= k < |rows| && k != i ensures once.rows[k].id != id {
          assert once.rows[k] == rows[k];
          if k < i { assert rows[k].id != rows[i].id; } else { assert rows[i].id != rows[k].id; }
        }
        assert FirstIndex(once.rows, id) == -1;
      }
    }
  }

  /** A successful PUT keeps ids unique when the submitted object carries no
      id or carries the one it was addressed to. */
  lemma PutKeepsUnique(rows: seq<Row>, id: Field, newData: Row)
    requires Unique(rows) && (newData.id == None || newData.id == id)
    ensures Unique(HandlePut(rows, Parsed(PutBody(id, newData))).rows)
  {
    var st := HandlePut(rows, Parsed(PutBody(id, newData)));
    if Complete(newData, UpdateKeys) && Has(rows, id) {
      var i := FirstIndex(rows, id);
      forall a, b | 0 <= a < b < |st.rows| ensures st.rows[a].id != st.rows[b].id {
        assert st.rows[i].id == rows[i].id;
        assert a != i ==> st.rows[a] == rows[a];
        assert b != i ==> st.rows[b] == rows[b];
      }
    }
  }

  /** A successful DELETE splices out the first row with the id: one row fewer,
      the others in their order, answered 204 with the remaining list. */
  lemma DeleteSplicesFirstMatch(rows: seq<Row>, id: Field)
    requires Has(rows, id)
    ensures var st := HandleDelete(rows, Parsed(id));
            var i := FirstIndex(rows, id);
            0 <= i < |rows| && rows[i].id == id
            && st.rows == rows[..i] + rows[i + 1..]
            && |st.rows| == |rows| - 1
            && st.response == Response(204, ListBody(st.rows))
  {
  }

  /** DELETE of an id no row has answers "Row not found" and changes nothing. */
  lemma DeleteUnknownId(rows: seq<Row>, id: Field)
    requires !Has(rows, id)
    ensures HandleDelete(rows, Parsed(id)) == Step(Reply(ErrorBody(RowNotFound)), rows)
  {
  }

  /** Removing one row keeps ids unique, and when they were unique the removed
      id is gone afterwards. */
  lemma DeleteKeepsUnique(rows: seq<Row>, id: Field)
    requires Unique(rows)
    ensures Unique(HandleDelete(rows, Parsed(id)).rows)
    ensures !Has(HandleDelete(rows, Parsed(id)).rows, id)
  {
    var i := FirstIndex(rows, id);
    if i != -1 {
      var rest := rows[..i] + rows[i + 1..];
      assert forall k :: 0 <= k < |rest| ==> rest[k] == rows[if k < i then k else k + 1];
      forall k | 0 <= k < |rest| ensures rest[k].id != id {
        if k < i {
          assert rest[k] == rows[k];
        } else {
          assert rest[k] == rows[k + 1];
          assert rows[i].id != rows[k + 1].id;
        }
      }
    }
  }

  /** Deleting the same id twice succeeds once and then answers "Row not found". */
  lemma DeleteTwice(rows: seq<Row>, id: Field)
    requires Unique(rows) && Has(rows, id)
    ensures var first := HandleDelete(rows, Parsed(id));
            var second := HandleDelete(first.rows, Parsed(id));
            first.response.status == 204
            && second == Step(Reply(ErrorBody(RowNotFound)), first.rows)
  {
    DeleteKeepsUnique(rows, id);
  }

  /** Create, list, update and delete one record, starting from an empty list:
      the 201 row carries the generated id, the list then holds exactly it, the
      update changes the city, the delete empties the list and a second delete
      of the same id answers "Row not found". */
  lemma Lifecycle(freshId: string)
    ensures var alice := Row(None, Some(Str("Alice")), Some(Num(30)), Some(Str("Female")),
                             Some(Str("Reno")), Some(Str("1994-01-01")), Some(Str("Bachelors")));
            var id := Some(Str(freshId));
            var created := HandlePost([], Parsed(alice), freshId);
            var stored := alice.(id := id);
            var moved := HandlePut(created.rows, Parsed(PutBody(id, alice.(city := Some(Str("Tahoe"))))));
            var deleted := HandleDelete(moved.rows, Parsed(id));
            created.response == Response(201, RowBody(stored))
            && HandleGet(created.rows) == Reply(ListBody([stored]))
            && moved.rows == [stored.(city := Some(Str("Tahoe")))]
            && deleted == Step(Response(204, ListBody([])), [])
            && HandleDelete(deleted.rows, Parsed(id)) == Step(Reply(ErrorBody(RowNotFound)), [])
  {
    var alice := Row(None, Some(Str("Alice")), Some(Num(30)), Some(Str("Female")),
                     Some(Str("Reno")), Some(Str("1994-01-01")), Some(Str("Bachelors")));
    var id := Some(Str(freshId));
    var stored := alice.(id := id);
    assert Complete(alice, CreateKeys);
    var created := HandlePost([], Parsed(alice), freshId);
    assert created.rows == [stored];
    var edited := alice.(city := Some(Str("Tahoe")));
    assert Complete(edited, UpdateKeys);
    assert FirstIndex([stored], id) == 0;
    var moved := HandlePut(created.rows, Parsed(PutBody(id, edited)));
    assert Merge(stored, edited) == stored.(city := Some(Str("Tahoe"))) by {
      RowExtensionality(Merge(stored, edited), stored.(city := Some(Str("Tahoe"))));
    }
    assert moved.rows == [stored.(city := Some(Str("Tahoe")))];
    assert FirstIndex(moved.rows, id) == 0;
    var deleted := HandleDelete(moved.rows, Parsed(id));
    assert deleted.rows == [];
    assert FirstIndex(deleted.rows, id) == -1;
  }
}
