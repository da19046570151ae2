# Editable table: the record store, its four handlers and the page's mirror

This project models the data path of a small editable person table. The server keeps
a module-level list of row objects (`mockdata`). Four request handlers work on it:

- GET returns the list.
- POST validates a new row, gives it a generated id and appends it.
- PUT validates a partial row, finds the first row with the given id and overlays
  the submitted properties on it.
- DELETE splices out the first row with the given id.

The page keeps its own copy of the list. After each request it rebuilds that copy
with one `setData` call: it replaces the list on fetch, appends on add, maps on
update and filters on delete.

There are three modules:

- `Rows` (`rows.dfy`) holds the row record. Each of its seven properties is a
  `Field`, an optional primitive JSON value, so an absent property, `""`, `0` and
  `null` are all told apart. It also holds JavaScript truthiness (`Truthy`,
  `Given`), the object spread `{ ...stored, ...submitted }` (`Merge`), the response
  datatype (a status and a body) and the three error messages.
- `RecordStore` (`store.dfy`) models `app/api/table/route.ts`. Each handler is a
  pure function of the old list and the parsed request, returning the response
  and the new list (`HandleGet`, `HandlePost`, `HandlePut`, `HandleDelete`). The
  class `Store` holds `rows`, the module-level array. Its methods change `rows`
  the way the source does. POST appends without any search. PUT assigns the
  merged row at an index, and DELETE splices; both do so after a linear
  `FindIndex` loop. Each method is proved to agree with its
  function. The lemmas state what each handler promises.
- `ClientMirror` (`client.dfy`) models the `setData` transforms of
  `app/components/YourPage.tsx` as functions on `seq<Row>`. An `Outcome` stands
  for how the HTTP call settled: resolved with the body, or rejected into the
  `catch`. `Receive` gives the HTTP client's rule: it resolves for a 2xx status
  and rejects any other. The lemmas compare the page's rebuilt list with the
  server's list after the same request.

Facts about the source that the lemmas make precise:

- Validation uses truthiness, so `age: 0` and empty strings are refused.
- POST does not check education.
- PUT validates before it looks up the id.
- PUT answers with the submitted object, not the merged row.
- PUT and DELETE change only the first row whose id matches.
- The generated id is never checked for uniqueness.
- Every caught error goes out with the default status, 200. The page therefore
  takes such an error body for a success. A refused PUT blanks the page's copy of
  the row, and a POST whose body could not be read appends an empty row.
- With unique ids, the page's delete filter and the server's splice agree.
- With a duplicated id they part: the server removes one row, the page removes
  every row with that id.

Nothing in the code keeps ids unique: the generated id is never checked against
the list. `freshId` is an input to POST, and uniqueness is proved to survive a
POST only when `freshId` is not already in use (`PostUniqueness`).

## Model

| member | source | states |
|---|---|---|
| `Rows.Merge` | app/api/table/route.ts:61 | every property present in the submitted object wins; every absent one keeps the stored value |
| `Rows.MergeFullRow` | app/api/table/route.ts:61 | merging an object that carries all seven properties yields that object |
| `RecordStore.FirstIndex` | app/api/table/route.ts:59 | `findIndex`: -1 exactly when no row has the id; otherwise a matching position with no match before it |
| `RecordStore.ValidateData` | app/api/table/route.ts:14-25 | fails with "Incomplete data" exactly when one of name, age, gender, city, birthDate or education is absent or falsy |
| `RecordStore.CreateFieldsMissing` | app/api/table/route.ts:38 | true exactly when one of name, age, gender, city or birthDate is absent or falsy; education is not checked |
| `RecordStore.Store.constructor` | app/api/table/route.ts:2 | the list starts as the seed data |
| `RecordStore.Store.FindIndex` | app/api/table/route.ts:75 | the linear search returns the first index whose id matches, or -1 exactly when no row has the id |
| `RecordStore.Store.Get` | app/api/table/route.ts:27-30 | answers the whole list, in order, with the default status |
| `RecordStore.Store.Post` | app/api/table/route.ts:32-51 | response and new list are those of `HandlePost` on the old list (error, 400 refusal, or 201 append) |
| `RecordStore.Store.Put` | app/api/table/route.ts:53-69 | response and new list are those of `HandlePut` on the old list (validate, then merge into the first match or "Row not found") |
| `RecordStore.Store.Delete` | app/api/table/route.ts:71-85 | response and new list are those of `HandleDelete` on the old list (splice of the first match with 204, or "Row not found") |
| `RecordStore.ThrownRequestsChangeNothing` | app/api/table/route.ts:48-49 | an error thrown while reading a request is answered with its message and status 200, and the list is unchanged (POST, PUT and DELETE) |
| `RecordStore.PostRefusal` | app/api/table/route.ts:38-43 | POST answers 400 exactly when a create field is falsy; a refusal carries "All fields are required" and leaves the list as it was |
| `RecordStore.PostTruthiness` | app/api/table/route.ts:38 | `age: 0` and an empty name are refused; a complete row without education is accepted with 201 |
| `RecordStore.PostAppends` | app/api/table/route.ts:45-47 | a successful POST grows the list by one, keeps every earlier row, stores the submitted properties verbatim except the id, which becomes the generated one, and returns that row with 201 |
| `RecordStore.PostThenGet` | app/api/table/route.ts:27-29 | after a successful POST, GET returns the old list followed by the created row |
| `RecordStore.PostUniqueness` | app/api/table/route.ts:45-46 | starting from unique ids, the list after a POST has unique ids exactly when the generated id was not already in use |
| `RecordStore.PutValidatesFirst` | app/api/table/route.ts:56-59 | incomplete `newData` gives "Incomplete data" and no change, whatever the id |
| `RecordStore.PutUnknownId` | app/api/table/route.ts:59-65 | complete `newData` for an id no row has gives "Row not found" and no change |
| `RecordStore.PutMergesFirstMatch` | app/api/table/route.ts:59-62 | only the first matching row changes, to the old row overlaid by every submitted property (the id too); the length and all other rows stay; the body is `newData` |
| `RecordStore.PutTwice` | app/api/table/route.ts:59-61 | repeating a PUT with the same body leaves the list as one PUT left it, when the body carries no id or the addressed one, or ids are unique |
| `RecordStore.PutKeepsUnique` | app/api/table/route.ts:61 | a PUT whose `newData` has no id, or the addressed id, keeps ids unique |
| `RecordStore.DeleteSplicesFirstMatch` | app/api/table/route.ts:75-78 | DELETE of a present id removes the first matching row, so the list is one shorter with the others in order, and answers 204 with the remaining list |
| `RecordStore.DeleteUnknownId` | app/api/table/route.ts:75-81 | DELETE of an absent id answers "Row not found" and changes nothing |
| `RecordStore.DeleteKeepsUnique` | app/api/table/route.ts:77 | with unique ids, the list after DELETE still has unique ids and no longer has the deleted id |
| `RecordStore.DeleteTwice` | app/api/table/route.ts:71-85 | with unique ids, deleting a present id succeeds with 204, and deleting it again answers "Row not found" without change |
| `RecordStore.Lifecycle` | app/api/table/route.ts:32-85 | from an empty list: create answers 201 with the generated id, the list is that one row, the update changes the city, the delete empties the list and a second delete fails |
| `ClientMirror.Receive` | app/components/YourPage.tsx:35-41 | a call resolves with the body exactly for a 2xx status and goes to `catch` otherwise |
| `ClientMirror.FetchRows` | app/components/YourPage.tsx:25-32 | the list becomes the server's list, or stays as it was when the call fails |
| `ClientMirror.AddRow` | app/components/YourPage.tsx:34-42 | on success the old list with the response row appended, nothing else changed; unchanged on failure |
| `ClientMirror.ReplaceAll` | app/components/YourPage.tsx:47-49 | same length; every row with the id is the replacement and every other row is unchanged |
| `ClientMirror.RemoveAll` | app/components/YourPage.tsx:60 | keeps exactly the rows whose id differs, and never grows |
| `ClientMirror.UpdateRow` | app/components/YourPage.tsx:44-55 | on success every row with the id becomes the response body; unchanged on failure |
| `ClientMirror.DeleteRow` | app/components/YourPage.tsx:57-66 | on success every row with the id is removed; unchanged on failure |
| `ClientMirror.RemoveAllCounts` | app/components/YourPage.tsx:60 | the filter keeps every row without the id exactly as many times as it occurs, and no row with the id |
| `ClientMirror.RemoveAllConcat` | app/components/YourPage.tsx:60 | the filter distributes over concatenation, so it keeps the order of the rows it keeps |
| `ClientMirror.RemoveAllAbsent` | app/components/YourPage.tsx:60 | filtering out an id no row has returns the list unchanged |
| `ClientMirror.FilterOneIsSplice` | app/components/YourPage.tsx:60 | when exactly one row has the id, the filter equals splicing out that row |
| `ClientMirror.FilterIsSplice` | app/components/YourPage.tsx:59-61 | with unique ids, the page's filter equals the server's splice of the first match |
| `ClientMirror.MirrorAfterGet` | app/components/YourPage.tsx:27-28 | after a fetch the page holds exactly the server's list |
| `ClientMirror.MirrorAfterPost` | app/components/YourPage.tsx:36-37 | a parsed POST leaves page and server equal (201 appends the same row; 400 rejects); an unreadable POST makes the page append an empty row the server lacks |
| `ClientMirror.MirrorAfterPut` | app/components/YourPage.tsx:46-50 | with unique ids, a successful PUT whose `newData` carries an id leaves page and server equal |
| `ClientMirror.MirrorLosesIdOnPutWithoutId` | app/components/YourPage.tsx:46-49 | a successful PUT whose `newData` has no id leaves the page's row without the id the server kept |
| `ClientMirror.MirrorAfterRefusedPut` | app/components/YourPage.tsx:46-50 | a refused PUT leaves the server unchanged but, answered with status 200, blanks the page's row |
| `ClientMirror.MirrorAfterDelete` | app/components/YourPage.tsx:59-61 | with unique ids, after any parsed DELETE the page's list equals the server's list |
| `ClientMirror.MirrorAfterDeleteOfDuplicate` | app/components/YourPage.tsx:60 | with two rows sharing an id, the server keeps one and the page keeps none |

## Left out

- Reading the request body and serialising the response are not modelled. The
  handlers take the parsed body. A failure in `request.json()`, or a `TypeError`
  from destructuring a `null` body or reading a `null` `newData`, is
  `Parsed.Threw(message)`. The message is an input, because the runtime writes
  its text.
- Id generation with `Math.random().toString(36).substr(2, 9)` is random, so the
  generated id is the POST input `freshId`. Nothing is assumed about it.
- The contents of the seed data file are not part of this model. The store
  starts from any given list.
- Interleaving at `await` points is left out: each handler runs atomically. The
  source has no locking.
- Property values are primitive JSON values, and numbers are integers. NaN,
  fractional numbers, and objects or arrays as property values are not modelled.
  Properties other than the seven of `RowData` are not modelled either. POST
  stores such properties verbatim and PUT merges them.
- `RecordStore.HandleDelete` and `RecordStore.Store.Delete` answer 204 with the
  remaining list, as `app/api/table/route.ts:78` writes it. A 204 response may not
  carry a body, so the runtime may throw there after the splice. The `catch`
  would then answer 200 with an error body. How the runtime builds responses is
  not modelled. `ClientMirror.MirrorAfterDelete` holds either way, because the
  page ignores the DELETE body.
- `ClientMirror.FetchRows` requires that a resolved fetch carries a list. GET
  always answers with one. A non-array body would make the page's state a
  non-list, which a `seq<Row>` cannot hold.
- The HTTP client, toasts, React state and effects are I/O and UI, so only their
  list transforms are modelled. The HTTP client's default status rule is
  `ClientMirror.Receive`.
- `app/components/Editable.tsx` is not part of this model. It is table UI built on
  a third-party library, and its inline edits mutate DOM-bound row objects.
  `app/components/IndeterminateCheckbox.tsx` and `app/layout.tsx` are not part of
  this model either; they are UI and page metadata.
