/** The page's local copy of the table (`app/components/YourPage.tsx`). After
    each request the page rebuilds its list with one `setData`: wholesale on
    fetch, append on add, `map` on update, `filter` on delete; a rejected
    request only shows a toast. The lemmas compare the rebuilt list with the
    server's list after the same request. */
module ClientMirror {
  import opened Rows
  import opened RecordStore

  /** How an HTTP call of the page settles: resolved with the response body,
      or rejected (the `catch` branch). */
  datatype Outcome = Resolved(data: Body) | Rejected

  /** The HTTP client resolves for a 2xx status and rejects any other. */
  function Receive(resp: Response): (o: Outcome)
    ensures o.Resolved? <==> 200 <= resp.status < 300
    ensures o.Resolved? ==> o.data == resp.body
  {
    if 200 <= resp.status < 300 then Resolved(resp.body) else Rejected
  }

  /** `response.data` read as a row: a row body is that row; an error object or
      an array has none of the seven properties. */
  function AsRow(b: Body): Row {
    if b.RowBody? then b.row else Blank
  }

  /** `fetchData`: the list becomes the server's list, or stays on failure. */
  function FetchRows(local: seq<Row>, o: Outcome): (r: seq<Row>)
    requires o.Resolved? ==> o.data.ListBody?
    ensures o.Rejected? ==> r == local
    ensures o.Resolved? ==> r == o.data.rows
  {
    match o
    case Rejected => local
    case Resolved(b) => b.rows
  }

  /** `handleAddRow`: `[...data, response.data]`. */
  function AddRow(local: seq<Row>, o: Outcome): (r: seq<Row>)
    ensures o.Rejected? ==> r == local
    ensures o.Resolved? ==> |r| == |local| + 1 && r[..|local|] == local && r[|local|] == AsRow(o.data)
  {
    match o
    case Rejected => local
    case Resolved(b) => local + [AsRow(b)]
  }

  /** `data.map((row) => row.id === id ? replacement : row)` */
  function ReplaceAll(s: seq<Row>, id: Field, replacement: Row): (r: seq<Row>)
    ensures |r| == |s|
    ensures forall k :: 0 <= k < |s| ==> r[k] == if s[k].id == id then replacement else s[k]
  {
    if s == [] then []
    else [if s[0].id == id then replacement else s[0]] + ReplaceAll(s[1..], id, replacement)
  }

  /** `data.filter((row) => row.id !== id)` */
  function RemoveAll(s: seq<Row>, id: Field): (r: seq<Row>)
    ensures |r| <= |s|
    ensures forall x :: x in r <==> x in s && x.id != id
  {
    if s == [] then []
    else (if s[0].id == id then [] else [s[0]]) + RemoveAll(s[1..], id)
  }

  /** `handleUpdateRow`: every row with the id becomes the response body. */
  function UpdateRow(local: seq<Row>, id: Field, o: Outcome): (r: seq<Row>)
    ensures o.Rejected? ==> r == local
    ensures o.Resolved? ==> r == ReplaceAll(local, id, AsRow(o.data))
  {
    match o
    case Rejected => local
    case Resolved(b) => ReplaceAll(local, id, AsRow(b))
  }

  /** `handleDeleteRow`: every row with the id is dropped; the body is ignored. */
  function DeleteRow(local: seq<Row>, id: Field, o: Outcome): (r: seq<Row>)
    ensures o.Rejected? ==> r == local
    ensures o.Resolved? ==> r == RemoveAll(local, id)
  {
    match o
    case Rejected => local
    case Resolved(_) => RemoveAll(local, id)
  }

  // ---------------------------------------------------------------------------
  // Properties of the list transforms

  /** The filter keeps order: it distributes over concatenation. */
  lemma {:induction false} RemoveAllConcat(a: seq<Row>, b: seq<Row>, id: Field)
    ensures RemoveAll(a + b, id) == RemoveAll(a, id) + RemoveAll(b, id)
  {
    if a == [] {
      assert a + b == b;
    } else {
      assert (a + b)[1..] == a[1..] + b;
      RemoveAllConcat(a[1..], b, id);
    }
  }

  /** The filter keeps every other row as often as it occurs and no row with the id. */
  lemma {:induction false} RemoveAllCounts(s: seq<Row>, id: Field)
    ensures forall x :: multiset(RemoveAll(s, id))[x] == if x.id == id then 0 else multiset(s)[x]
  {
    if s != [] {
      RemoveAllCounts(s[1..], id);
      assert s == [s[0]] + s[1..];
      assert multiset(s) == multiset([s[0]]) + multiset(s[1..]);
    }
  }

  /** Filtering out an id no row has leaves the list as it is. */
  lemma {:induction false} RemoveAllAbsent(s: seq<Row>, id: Field)
    requires !Has(s, id)
    ensures RemoveAll(s, id) == s
  {
    if s != [] {
      assert !Has(s[1..], id) by {
        forall k | 0 <= k < |s[1..]| ensures s[1..][k].id != id {
          assert s[1..][k] == s[k + 1];
        }
      }
      RemoveAllAbsent(s[1..], id);
      assert [s[0]] + s[1..] == s;
    }
  }

  /** A slice in which no row carries the id does not have it. */
  lemma AbsentFromSlice(s: seq<Row>, lo: nat, hi: nat, id: Field)
    requires lo <= hi <= |s|
    requires forall k :: lo <= k < hi ==> s[k].id != id
    ensures !Has(s[lo..hi], id)
  {
    forall j | 0 <= j < hi - lo ensures s[lo..hi][j].id != id {
      assert s[lo..hi][j] == s[lo + j];
    }
  }

  /** Splicing position `i` out of a list is keeping its head and splicing
      position `i - 1` out of its tail. */
  lemma SpliceOfTail(s: seq<Row>, i: nat)
    requires 0 < i < |s|
    ensures [s[0]] + (s[1..][..i - 1] + s[1..][i..]) == s[..i] + s[i + 1..]
  {
    assert s[1..][..i - 1] == s[1..i] && s[1..][i..] == s[i + 1..];
    assert [s[0]] + s[1..i] == s[..i];
  }

  /** A list whose first row alone carries the id loses just that row. */
  lemma FilterOnlyHead(s: seq<Row>, id: Field)
    requires 0 < |s| && s[0].id == id
    requires forall k :: 0 < k < |s| ==> s[k].id != id
    ensures RemoveAll(s, id) == s[..0] + s[1..]
  {
    AbsentFromSlice(s, 1, |s|, id);
    assert s[1..|s|] == s[1..];
    RemoveAllAbsent(s[1..], id);
    assert s[..0] + s[1..] == s[1..];
  }

  /** Filtering out the id of the one row that carries it is splicing out that row. */
  lemma {:induction false} FilterOneIsSplice(s: seq<Row>, i: nat, id: Field)
    requires i < |s| && s[i].id == id
    requires forall k :: 0 <= k < |s| && k != i ==> s[k].id != id
    ensures RemoveAll(s, id) == s[..i] + s[i + 1..]
  {
    if i == 0 {
      FilterOnlyHead(s, id);
    } else {
      var tail := s[1..];
      forall k | 0 <= k < |tail| && k != i - 1 ensures tail[k].id != id {
        assert tail[k] == s[k + 1];
      }
      FilterOneIsSplice(tail, i - 1, id);
      SpliceOfTail(s, i);
    }
  }

  /** With unique ids the client's filter and the server's splice of the first
      match give the same list. */
  lemma FilterIsSplice(s: seq<Row>, id: Field)
    requires Unique(s) && Has(s, id)
    ensures var i := FirstIndex(s, id);
            0 <= i < |s| && RemoveAll(s, id) == s[..i] + s[i + 1..]
  {
    var i := FirstIndex(s, id);
    forall k | 0 <= k < |s| && k != i ensures s[k].id != id {
      if k < i { assert s[k].id != s[i].id; } else { assert s[i].id != s[k].id; }
    }
    FilterOneIsSplice(s, i, id);
  }

  // ---------------------------------------------------------------------------
  // The page's list against the server's list after the same request, starting
  // from a page that holds exactly the server's list

  /** After a fetch the page holds the server's list. */
  lemma MirrorAfterGet(local: seq<Row>, rows: seq<Row>)
    ensures FetchRows(local, Receive(HandleGet(rows))) == rows
  {
  }

  /** A parsed POST keeps the page in step: a 201 appends the same row on both
      sides and a 400 is rejected, so neither side changes. A POST whose body
      could not be read is answered with the default status, so the page
      appends an empty row the server does not have. */
  lemma MirrorAfterPost(rows: seq<Row>, req: Parsed<Row>, freshId: string)
    ensures var st := HandlePost(rows, req, freshId);
            req.Parsed? ==> AddRow(rows, Receive(st.response)) == st.rows
    ensures var st := HandlePost(rows, req, freshId);
            req.Threw? ==> AddRow(rows, Receive(st.response)) == rows + [Blank] != st.rows
  {
    var st := HandlePost(rows, req, freshId);
    if req.Threw? {
      assert |rows + [Blank]| != |st.rows|;
    }
  }

  /** With unique ids, a successful PUT whose submitted object carries an id
      leaves the page holding the server's list: the only row with the id is
      replaced on both sides, and the merge of a complete object with an id is
      that object. */
  lemma MirrorAfterPut(rows: seq<Row>, id: Field, newData: Row)
    requires Unique(rows) && Has(rows, id)
    requires Complete(newData, UpdateKeys) && newData.id.Some?
    ensures var st := HandlePut(rows, Parsed(PutBody(id, newData)));
            UpdateRow(rows, id, Receive(st.response)) == st.rows
  {
    var st := HandlePut(rows, Parsed(PutBody(id, newData)));
    var i := FirstIndex(rows, id);
    forall k ensures Prop(newData, k).Some? {
      assert k != Id ==> k in UpdateKeys;
    }
    MergeFullRow(rows[i], newData);
    var mine := UpdateRow(rows, id, Receive(st.response));
    forall k | 0 <= k < |rows| ensures mine[k] == st.rows[k] {
      if k != i {
        assert rows[k].id != rows[i].id by {
          if k < i { assert rows[k].id != rows[i].id; } else { assert rows[i].id != rows[k].id; }
        }
      }
    }
  }

  /** The PUT response is the submitted object, not the merged row: when it
      carries no id, the page's copy of the row loses the id the server kept. */
  lemma MirrorLosesIdOnPutWithoutId(rows: seq<Row>, id: Field, newData: Row)
    requires Has(rows, id) && id != None
    requires Complete(newData, UpdateKeys) && newData.id == None
    ensures var st := HandlePut(rows, Parsed(PutBody(id, newData)));
            UpdateRow(rows, id, Receive(st.response)) != st.rows
  {
    var st := HandlePut(rows, Parsed(PutBody(id, newData)));
    var i := FirstIndex(rows, id);
    assert st.rows[i].id == id;
    assert UpdateRow(rows, id, Receive(st.response))[i].id == None;
  }

  /** A refused PUT is answered with the default status, so the page takes the
      error object for the row: every row with the id becomes empty while the
      server's list is unchanged. */
  lemma MirrorAfterRefusedPut(rows: seq<Row>, id: Field, newData: Row)
    requires Has(rows, id) && id != None
    requires !Complete(newData, UpdateKeys)
    ensures var st := HandlePut(rows, Parsed(PutBody(id, newData)));
            st.rows == rows && UpdateRow(rows, id, Receive(st.response)) != st.rows
  {
    var st := HandlePut(rows, Parsed(PutBody(id, newData)));
    var i := FirstIndex(rows, id);
    assert UpdateRow(rows, id, Receive(st.response))[i] == Blank;
  }

  /** With unique ids every parsed DELETE leaves the page holding the server's
      list: a found id is filtered out on the page and spliced out on the
      server, and for an absent id the "Row not found" answer carries the
      default status, the page filters, and nothing is removed on either side. */
  lemma MirrorAfterDelete(rows: seq<Row>, id: Field)
    requires Unique(rows)
    ensures var st := HandleDelete(rows, Parsed(id));
            DeleteRow(rows, id, Receive(st.response)) == st.rows
  {
    if Has(rows, id) {
      FilterIsSplice(rows, id);
    } else {
      RemoveAllAbsent(rows, id);
    }
  }

  /** Without unique ids the two sides part: the server removes only the first
      of two rows with the id, the page removes both. */
  lemma MirrorAfterDeleteOfDuplicate(r: Row)
    ensures var st := HandleDelete([r, r], Parsed(r.id));
            st.rows == [r] && DeleteRow([r, r], r.id, Receive(st.response)) == []
  {
    var st := HandleDelete([r, r], Parsed(r.id));
    assert st.rows == [r];
    assert RemoveAll([r, r], r.id) == [];
  }
}
