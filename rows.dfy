/** The person record shared by the table endpoint and the page that mirrors it,
    the JSON values its fields may hold, and the responses the endpoint sends. */
module Rows {

  datatype Option<+T> = None | Some(value: T)

  /** A primitive JSON value, as `request.json()` yields it for one property.
      Numbers are modelled as integers. */
  datatype Json = Null | Bool(b: bool) | Num(n: int) | Str(s: string)

  /** JavaScript truthiness of a JSON value: `null`, `false`, `0` and `""` are falsy. */
  predicate Truthy(v: Json) {
    match v
    case Null => false
    case Bool(b) => b
    case Num(n) => n != 0
    case Str(s) => s != ""
  }

  /** One property of a parsed object: `None` when the property is absent
      (reading it gives `undefined`), `Some(v)` when the body carries it. */
  type Field = Option<Json>

  /** `!field` is false: the property is present and its value is truthy. */
  predicate Given(f: Field) {
    f.Some? && Truthy(f.value)
  }

  /** A row object (`RowData`). Every property may be absent, so that a
      submitted partial record and a stored one share one type. */
  datatype Row = Row(id: Field, name: Field, age: Field, gender: Field,
                     city: Field, birthDate: Field, education: Field)

  /** The names of the seven properties of a row. */
  datatype Key = Id | Name | Age | Gender | City | BirthDate | Education

  function Prop(r: Row, k: Key): Field {
    match k
    case Id => r.id
    case Name => r.name
    case Age => r.age
    case Gender => r.gender
    case City => r.city
    case BirthDate => r.birthDate
    case Education => r.education
  }

  /** Two rows are equal exactly when they agree on every property. */
  lemma RowExtensionality(a: Row, b: Row)
    requires forall k :: Prop(a, k) == Prop(b, k)
    ensures a == b
  {
    assert Prop(a, Id) == Prop(b, Id) && Prop(a, Name) == Prop(b, Name) && Prop(a, Age) == Prop(b, Age);
    assert Prop(a, Gender) == Prop(b, Gender) && Prop(a, City) == Prop(b, City);
    assert Prop(a, BirthDate) == Prop(b, BirthDate) && Prop(a, Education) == Prop(b, Education);
  }

  /** An object with none of the seven properties, such as `{ error: "..." }`
      read as a row. */
  const Blank: Row := Row(None, None, None, None, None, None, None)

  /** Every property in `keys` is present and truthy. */
  predicate Complete(d: Row, keys: set<Key>) {
    forall k :: k in keys ==> Given(Prop(d, k))
  }

  /** The properties the create handler requires (education is not among them). */
  const CreateKeys: set<Key> := {Name, Age, Gender, City, BirthDate}

  /** The properties `validateData` requires. */
  const UpdateKeys: set<Key> := CreateKeys + {Education}

  /** The object spread `{ ...stored, ...submitted }`: every property the
      submitted object carries wins, every other one keeps the stored value. */
  function Merge(stored: Row, submitted: Row): (r: Row)
    ensures forall k :: Prop(r, k) == if Prop(submitted, k).Some? then Prop(submitted, k) else Prop(stored, k)
  {
    Row(Overlay(stored.id, submitted.id), Overlay(stored.name, submitted.name),
        Overlay(stored.age, submitted.age), Overlay(stored.gender, submitted.gender),
        Overlay(stored.city, submitted.city), Overlay(stored.birthDate, submitted.birthDate),
        Overlay(stored.education, submitted.education))
  }

  function Overlay(stored: Field, submitted: Field): Field {
    if submitted.Some? then submitted else stored
  }

  /** Merging an object that carries every property replaces the stored row outright. */
  lemma MergeFullRow(stored: Row, submitted: Row)
    requires forall k :: Prop(submitted, k).Some?
    ensures Merge(stored, submitted) == submitted
  {
    RowExtensionality(Merge(stored, submitted), submitted);
  }

  /** Merging the same submission twice has the effect of merging it once. */
  lemma MergeIdempotent(stored: Row, submitted: Row)
    ensures Merge(Merge(stored, submitted), submitted) == Merge(stored, submitted)
  {
    var once := Merge(stored, submitted);
    RowExtensionality(Merge(once, submitted), once);
  }

  /** What a handler hands to `NextResponse.json` as the body. */
  datatype Body = RowBody(row: Row) | ListBody(rows: seq<Row>) | ErrorBody(error: string)

  datatype Response = Response(status: nat, body: Body)

  /** The status `NextResponse.json` sends when it is given none. */
  const DefaultStatus: nat := 200

  /** `NextResponse.json(body)` with no status argument. */
  function Reply(body: Body): Response {
    Response(DefaultStatus, body)
  }

  const AllFieldsRequired: string := "All fields are required"
  const IncompleteData: string := "Incomplete data"
  const RowNotFound: string := "Row not found"

  /** The outcome of `await request.json()` followed by destructuring: either the
      parsed value, or the message of the error thrown on the way. */
  datatype Parsed<+T> = Parsed(value: T) | Threw(message: string)
}
