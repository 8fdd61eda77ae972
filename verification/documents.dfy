/** The write actions of `DocumentsController`: what each one validates, in
    which order, what it does to the tables, and the answer it gives. The
    tables are a `Store` value; an action yields the answer together with the
    tables afterwards, which are the tables before whenever the action does
    not succeed (nothing is saved, or the transaction is rolled back). */
module Documents {
  import opened Wrappers
  import opened Seqs
  import opened Text
  import opened Ledger

  /** One entry of the `ModelState` errors a validation problem reports. */
  datatype FieldError =
    | NumberRequired
    | TypeDocNotFound
    | ClientNotFound
    | ConditionNotFound
    | ResourceNotFound(resourceId: int)
    | UnitNotFound(unitId: int)
    | CountTooSmall
    | DocumentIdSetByServer
    | BadRowId
    | RowNotInDocument(rowId: int, documentId: int)

  /** The HTTP answers of the actions. `ServerError` is an exception that
      escapes the action (a unique-key violation on save, a duplicate key in
      `ToDictionary`). */
  datatype Response =
    | Ok(id: int)
    | NoContent
    | ValidationProblem(errors: seq<FieldError>)
    | BadRequest
    | NotFound
    | ServerError

  predicate Succeeded(r: Response) {
    r.Ok? || r.NoContent?
  }

  /** The answer of an action and the tables after it. */
  datatype Outcome = Outcome(response: Response, store: Store)

  // ---------------------------------------------------------------------
  // Validation

  /** `[Required]` on `Document.Number`: some character is not white space.
      Model binding checks it before the action body runs. */
  predicate NumberPresent(number: string) {
    exists k | 0 <= k < |number| :: !IsWhiteSpace(number[k])
  }

  /** The type, client and condition a header names all exist. */
  predicate HeaderRefsExist(refs: Refs, d: Document) {
    d.typeDocId in refs.typeDocs && d.clientId in refs.clients && d.conditionId in refs.conditions
  }

  /** `ValidateDocumentFksAsync`: one error per missing reference, in the
      order type, client, condition. */
  function DocumentFkErrors(refs: Refs, d: Document): (errs: seq<FieldError>)
    ensures errs == [] <==> HeaderRefsExist(refs, d)
    ensures TypeDocNotFound in errs <==> d.typeDocId !in refs.typeDocs
    ensures ClientNotFound in errs <==> d.clientId !in refs.clients
    ensures ConditionNotFound in errs <==> d.conditionId !in refs.conditions
    ensures |errs| <= 3
  {
    (if d.typeDocId in refs.typeDocs then [] else [TypeDocNotFound])
    + (if d.clientId in refs.clients then [] else [ClientNotFound])
    + (if d.conditionId in refs.conditions then [] else [ConditionNotFound])
  }

  /** A row names an existing resource and unit and moves at least one unit. */
  predicate RowRefsValid(refs: Refs, r: LineItem) {
    r.resourceId in refs.resources && r.unitId in refs.units && r.count >= 1
  }

  /** Which action checks the rows: creation insists the document key is left
      to the server, the update that row keys are not negative. */
  datatype RowCheck = ForCreate | ForUpdate

  /** The row rule specific to the action. */
  predicate OwnRuleHolds(check: RowCheck, r: LineItem) {
    match check
    case ForCreate => r.documentId == 0
    case ForUpdate => r.id >= 0
  }

  /** The errors of one row: the action's own rule first, then
      `ValidateRowFksAsync`. */
  function RowErrors(refs: Refs, r: LineItem, check: RowCheck): (errs: seq<FieldError>)
    ensures errs == [] <==> OwnRuleHolds(check, r) && RowRefsValid(refs, r)
    ensures DocumentIdSetByServer in errs <==> check.ForCreate? && r.documentId != 0
    ensures BadRowId in errs <==> check.ForUpdate? && r.id < 0
    ensures forall x {:trigger ResourceNotFound(x)} ::
      ResourceNotFound(x) in errs <==> x !in refs.resources && r.resourceId == x
    ensures forall x {:trigger UnitNotFound(x)} ::
      UnitNotFound(x) in errs <==> x !in refs.units && r.unitId == x
    ensures CountTooSmall in errs <==> r.count < 1
    ensures forall e | e in errs :: !e.RowNotInDocument? && !e.NumberRequired?
  {
    var own := if OwnRuleHolds(check, r) then [] else if check.ForCreate? then [DocumentIdSetByServer] else [BadRowId];
    var resource := if r.resourceId in refs.resources then [] else [ResourceNotFound(r.resourceId)];
    var unit := if r.unitId in refs.units then [] else [UnitNotFound(r.unitId)];
    var count := if r.count < 1 then [CountTooSmall] else [];
    assert forall e :: e in own + resource + unit + count <==> e in own || e in resource || e in unit || e in count;
    own + resource + unit + count
  }

  /** The errors of all rows, row by row. */
  function ItemsErrors(refs: Refs, items: seq<LineItem>, check: RowCheck): (errs: seq<FieldError>)
    ensures errs == [] <==> forall r | r in items :: OwnRuleHolds(check, r) && RowRefsValid(refs, r)
    ensures DocumentIdSetByServer in errs <==> check.ForCreate? && exists r | r in items :: r.documentId != 0
    ensures BadRowId in errs <==> check.ForUpdate? && exists r | r in items :: r.id < 0
    ensures forall x {:trigger ResourceNotFound(x)} ::
      ResourceNotFound(x) in errs <==> x !in refs.resources && exists r | r in items :: r.resourceId == x
    ensures forall x {:trigger UnitNotFound(x)} ::
      UnitNotFound(x) in errs <==> x !in refs.units && exists r | r in items :: r.unitId == x
    ensures CountTooSmall in errs <==> exists r | r in items :: r.count < 1
    ensures forall e | e in errs :: !e.RowNotInDocument? && !e.NumberRequired?
  {
    if items == [] then []
    else
      var head := RowErrors(refs, items[0], check);
      var rest := ItemsErrors(refs, items[1..], check);
      assert forall r | r in items[1..] :: r in items;
      assert forall r | r in items :: r == items[0] || r in items[1..];
      assert forall e :: e in head + rest <==> e in head || e in rest;
      head + rest
  }

  // ---------------------------------------------------------------------
  // Keys

  /** The key a saved document gets: its own when it sends one, the next
      value of the identity sequence when it sends 0. */
  function NewDocumentId(st: Store, d: Document): int {
    if d.id == 0 then st.nextDocumentId else d.id
  }

  function NextDocumentId(st: Store, d: Document): int {
    if d.id == 0 then st.nextDocumentId + 1 else st.nextDocumentId
  }

  function ItemIds(items: seq<LineItem>): (ids: seq<int>)
    ensures |ids| == |items| && forall i :: 0 <= i < |items| ==> ids[i] == items[i].id
  {
    if items == [] then [] else [items[0].id] + ItemIds(items[1..])
  }

  /** The keys one save gives the rows it inserts: a non-zero key is kept, a
      zero key draws the next value of the identity sequence. Also returns
      the sequence's next value afterwards. */
  function AssignIds(ids: seq<int>, next: int): (r: (seq<int>, int))
    ensures |r.0| == |ids| && next <= r.1
    ensures forall i | 0 <= i < |ids| && ids[i] != 0 :: r.0[i] == ids[i]
    ensures forall i | 0 <= i < |ids| && ids[i] == 0 :: next <= r.0[i] < r.1
    ensures forall i, j | 0 <= i < j < |ids| && ids[i] == 0 && ids[j] == 0 :: r.0[i] < r.0[j]
  {
    if ids == [] then ([], next)
    else
      var key := if ids[0] == 0 then next else ids[0];
      var rest := AssignIds(ids[1..], if ids[0] == 0 then next + 1 else next);
      var keys := [key] + rest.0;
      assert forall i | 1 <= i < |keys| :: keys[i] == rest.0[i - 1] && ids[i] == ids[1..][i - 1];
      (keys, rest.1)
  }

  /** One save draws as many values from the identity sequence as it
      inserts rows with key 0. */
  lemma {:induction false} AssignIdsDraws(items: seq<LineItem>, next: int)
    ensures AssignIds(ItemIds(items), next).1 == next + |NewRows(items)|
  {
    if items != [] {
      assert ItemIds(items)[1..] == ItemIds(items[1..]);
      AssignIdsDraws(items[1..], if items[0].id == 0 then next + 1 else next);
    }
  }

  /** Rows that all have key 0 draw one value each. */
  lemma {:induction false} AssignIdsAllDrawn(ids: seq<int>, next: int)
    requires forall i | 0 <= i < |ids| :: ids[i] == 0
    ensures AssignIds(ids, next).1 == next + |ids|
  {
    if ids != [] {
      AssignIdsAllDrawn(ids[1..], next + 1);
    }
  }

  /** Keys that differ pairwise and are not yet in the table. */
  predicate FreshKeys(ids: seq<int>, lines: seq<LineItem>) {
    && (forall i, j | 0 <= i < j < |ids| :: ids[i] != ids[j])
    && (forall i | 0 <= i < |ids| :: !HasItem(lines, ids[i]))
  }

  /** The rows as inserted: their keys and the document they belong to set. */
  function Stamp(items: seq<LineItem>, ids: seq<int>, docId: int): (rows: seq<LineItem>)
    requires |ids| == |items|
    ensures |rows| == |items|
    ensures forall i :: 0 <= i < |items| ==> rows[i] == items[i].(id := ids[i], documentId := docId)
  {
    if items == [] then [] else [items[0].(id := ids[0], documentId := docId)] + Stamp(items[1..], ids[1..], docId)
  }

  // ---------------------------------------------------------------------
  // Table edits

  /** The header with the document's key replaced by the given one; the rest
      of the table as it was. */
  function ReplaceHeader(docs: seq<Document>, d: Document): (r: seq<Document>)
    ensures |r| == |docs|
    ensures forall i :: 0 <= i < |docs| ==> r[i] == if docs[i].id == d.id then d else docs[i]
  {
    if docs == [] then [] else [if docs[0].id == d.id then d else docs[0]] + ReplaceHeader(docs[1..], d)
  }

  /** The documents other than the given one. */
  function WithoutDocument(docs: seq<Document>, id: int): (r: seq<Document>)
    ensures forall d :: d in r <==> d in docs && d.id != id
    ensures UniqueDocumentIds(docs) ==> UniqueDocumentIds(r)
  {
    if docs == [] then []
    else (if docs[0].id == id then [] else [docs[0]]) + WithoutDocument(docs[1..], id)
  }

  /** Every other document survives as often as it is stored. */
  lemma {:induction false} WithoutDocumentCopies(docs: seq<Document>, id: int)
    ensures forall d {:trigger multiset(WithoutDocument(docs, id))[d]} ::
      multiset(WithoutDocument(docs, id))[d] == if d.id != id then multiset(docs)[d] else 0
  {
    if docs != [] {
      WithoutDocumentCopies(docs[1..], id);
      assert docs == [docs[0]] + docs[1..];
    }
  }

  /** The lines of other documents (the cascade of a document's delete). */
  function WithoutLinesOf(lines: seq<LineItem>, id: int): (r: seq<LineItem>)
    ensures forall x :: x in r <==> x in lines && x.documentId != id
    ensures UniqueItemIds(lines) ==> UniqueItemIds(r)
  {
    if lines == [] then []
    else (if lines[0].documentId == id then [] else [lines[0]]) + WithoutLinesOf(lines[1..], id)
  }

  /** Every line of another document survives as often as it is stored. */
  lemma {:induction false} WithoutLinesOfCopies(lines: seq<LineItem>, id: int)
    ensures forall x {:trigger multiset(WithoutLinesOf(lines, id))[x]} ::
      multiset(WithoutLinesOf(lines, id))[x] == if x.documentId != id then multiset(lines)[x] else 0
  {
    if lines != [] {
      WithoutLinesOfCopies(lines[1..], id);
      assert lines == [lines[0]] + lines[1..];
    }
  }

  // ---------------------------------------------------------------------
  // Header actions

  /** A save that fails rolls its transaction back: no table changes. The
      identity sequences are not transactional, so a value drawn by the
      failed save stays used. */
  predicate RolledBack(st: Store, after: Store) {
    && after.documents == st.documents && after.items == st.items && after.refs == st.refs
    && st.nextDocumentId <= after.nextDocumentId && st.nextItemId <= after.nextItemId
  }

  /** `PostDocument`: the header is checked and inserted; the answer carries
      its key. */
  function PostDocument(st: Store, d: Document): (o: Outcome)
    ensures !NumberPresent(d.number) ==> o.response == ValidationProblem([NumberRequired])
    ensures NumberPresent(d.number) && !HeaderRefsExist(st.refs, d) ==>
      o.response == ValidationProblem(DocumentFkErrors(st.refs, d))
    ensures o.response.ServerError? <==>
      NumberPresent(d.number) && HeaderRefsExist(st.refs, d) && HasDocument(st.documents, NewDocumentId(st, d))
    ensures o.response.Ok? || o.response.ValidationProblem? || o.response.ServerError?
    ensures o.response.ValidationProblem? ==> o.store == st
    ensures o.response.ServerError? ==>
      && RolledBack(st, o.store) && o.store.nextItemId == st.nextItemId
      && o.store.nextDocumentId == (if d.id == 0 then st.nextDocumentId + 1 else st.nextDocumentId)
    ensures o.response.Ok? ==>
      && o.response.id == NewDocumentId(st, d)
      && !HasDocument(st.documents, o.response.id)
      && o.store.documents == st.documents + [d.(id := o.response.id)]
      && o.store.items == st.items && o.store.refs == st.refs && o.store.nextItemId == st.nextItemId
      && o.store.nextDocumentId == (if d.id == 0 then st.nextDocumentId + 1 else st.nextDocumentId)
  {
    if !NumberPresent(d.number) then Outcome(ValidationProblem([NumberRequired]), st)
    else if !HeaderRefsExist(st.refs, d) then Outcome(ValidationProblem(DocumentFkErrors(st.refs, d)), st)
    else
      var id := NewDocumentId(st, d);
      if HasDocument(st.documents, id) then Outcome(ServerError, st.(nextDocumentId := NextDocumentId(st, d)))
      else Outcome(Ok(id), st.(documents := st.documents + [d.(id := id)], nextDocumentId := NextDocumentId(st, d)))
  }

  /** `PutDocument`: the route key must be the body's; the stored header
      takes every field of the body. */
  function PutDocument(st: Store, id: int, d: Document): (o: Outcome)
    ensures !NumberPresent(d.number) ==> o.response == ValidationProblem([NumberRequired])
    ensures o.response == BadRequest <==> NumberPresent(d.number) && id != d.id
    ensures o.response == NotFound <==> NumberPresent(d.number) && id == d.id && !HasDocument(st.documents, id)
    ensures o.response.NoContent? <==>
      NumberPresent(d.number) && id == d.id && HasDocument(st.documents, id) && HeaderRefsExist(st.refs, d)
    ensures o.response.ValidationProblem? && NumberPresent(d.number) ==>
      o.response == ValidationProblem(DocumentFkErrors(st.refs, d))
    ensures !Succeeded(o.response) ==> o.store == st
    ensures o.response.NoContent? ==>
      o.store == st.(documents := ReplaceHeader(st.documents, d))
  {
    if !NumberPresent(d.number) then Outcome(ValidationProblem([NumberRequired]), st)
    else if id != d.id then Outcome(BadRequest, st)
    else if !HasDocument(st.documents, id) then Outcome(NotFound, st)
    else if !HeaderRefsExist(st.refs, d) then Outcome(ValidationProblem(DocumentFkErrors(st.refs, d)), st)
    else Outcome(NoContent, st.(documents := ReplaceHeader(st.documents, d)))
  }

  /** `DeleteDocument`: the header goes, and its lines go with it (the
      foreign key cascades). */
  function DeleteDocument(st: Store, id: int): (o: Outcome)
    ensures o.response == NotFound <==> !HasDocument(st.documents, id)
    ensures o.response == NotFound || o.response == NoContent
    ensures !Succeeded(o.response) ==> o.store == st
    ensures o.response.NoContent? ==>
      && (forall d :: d in o.store.documents <==> d in st.documents && d.id != id)
      && (forall x :: x in o.store.items <==> x in st.items && x.documentId != id)
      && o.store == st.(documents := WithoutDocument(st.documents, id), items := WithoutLinesOf(st.items, id))
  {
    if !HasDocument(st.documents, id) then Outcome(NotFound, st)
    else Outcome(NoContent, st.(documents := WithoutDocument(st.documents, id), items := WithoutLinesOf(st.items, id)))
  }

  // ---------------------------------------------------------------------
  // Actions on a document with its rows

  /** `CreateWithItems`: the header and its rows are checked, then saved in
      one transaction; every row is stamped with the new document's key. */
  function CreateWithItems(st: Store, d: Document, items: seq<LineItem>): (o: Outcome)
    ensures !NumberPresent(d.number) ==> o.response == ValidationProblem([NumberRequired])
    ensures NumberPresent(d.number) && !HeaderRefsExist(st.refs, d) ==>
      o.response == ValidationProblem(DocumentFkErrors(st.refs, d))
    ensures NumberPresent(d.number) && HeaderRefsExist(st.refs, d) && ItemsErrors(st.refs, items, ForCreate) != [] ==>
      o.response == ValidationProblem(ItemsErrors(st.refs, items, ForCreate))
    ensures o.response.ValidationProblem? <==>
      !NumberPresent(d.number) || !HeaderRefsExist(st.refs, d) || ItemsErrors(st.refs, items, ForCreate) != []
    ensures o.response.ServerError? <==>
      && NumberPresent(d.number) && HeaderRefsExist(st.refs, d) && ItemsErrors(st.refs, items, ForCreate) == []
      && (HasDocument(st.documents, NewDocumentId(st, d))
          || !FreshKeys(AssignIds(ItemIds(items), st.nextItemId).0, st.items))
    ensures o.response.Ok? || o.response.ValidationProblem? || o.response.ServerError?
    ensures o.response.ValidationProblem? ==> o.store == st
    // the header's save draws the document key; the rows' save runs only
    // after it and draws a key for every row sent with key 0
    ensures o.response.ServerError? ==>
      && RolledBack(st, o.store)
      && o.store.nextDocumentId == (if d.id == 0 then st.nextDocumentId + 1 else st.nextDocumentId)
      && (HasDocument(st.documents, NewDocumentId(st, d)) ==> o.store.nextItemId == st.nextItemId)
      && (!HasDocument(st.documents, NewDocumentId(st, d)) ==>
            o.store.nextItemId == st.nextItemId + |NewRows(items)|)
    ensures o.response.Ok? ==>
      var ids := AssignIds(ItemIds(items), st.nextItemId);
      && o.response.id == NewDocumentId(st, d)
      && !HasDocument(st.documents, o.response.id)
      && FreshKeys(ids.0, st.items)
      && o.store == st.(documents := st.documents + [d.(id := o.response.id)],
                        items := st.items + Stamp(items, ids.0, o.response.id),
                        nextDocumentId := NextDocumentId(st, d),
                        nextItemId := ids.1)
  {
    if !NumberPresent(d.number) then Outcome(ValidationProblem([NumberRequired]), st)
    else if !HeaderRefsExist(st.refs, d) then Outcome(ValidationProblem(DocumentFkErrors(st.refs, d)), st)
    else
      var rowErrors := ItemsErrors(st.refs, items, ForCreate);
      if rowErrors != [] then Outcome(ValidationProblem(rowErrors), st)
      else
        var docId := NewDocumentId(st, d);
        var ids := AssignIds(ItemIds(items), st.nextItemId);
        if HasDocument(st.documents, docId) then Outcome(ServerError, st.(nextDocumentId := NextDocumentId(st, d)))
        else if !FreshKeys(ids.0, st.items) then
          AssignIdsDraws(items, st.nextItemId);
          Outcome(ServerError, st.(nextDocumentId := NextDocumentId(st, d), nextItemId := ids.1))
        else
          Outcome(Ok(docId), st.(documents := st.documents + [d.(id := docId)],
                                 items := st.items + Stamp(items, ids.0, docId),
                                 nextDocumentId := NextDocumentId(st, d),
                                 nextItemId := ids.1))
  }

  /** The non-zero keys of the sent rows, in order (the keys of
      `incomingById`). */
  function SentKeys(items: seq<LineItem>): (ks: seq<int>)
    ensures forall k :: k in ks <==> k != 0 && exists r | r in items :: r.id == k
  {
    if items == [] then []
    else
      var rest := SentKeys(items[1..]);
      assert forall r | r in items[1..] :: r in items;
      assert forall r | r in items :: r == items[0] || r in items[1..];
      (if items[0].id != 0 then [items[0].id] else []) + rest
  }

  predicate NoRepeats(ks: seq<int>) {
    forall i, j | 0 <= i < j < |ks| :: ks[i] != ks[j]
  }

  /** The first sent row with the given non-zero key. */
  function SentRow(items: seq<LineItem>, key: int): (r: Option<LineItem>)
    ensures r.Some? <==> key != 0 && exists x | x in items :: x.id == key
    ensures r.Some? ==> r.value in items && r.value.id == key
  {
    if key == 0 || items == [] then None
    else if items[0].id == key then Some(items[0])
    else
      var rest := SentRow(items[1..], key);
      assert forall x | x in items[1..] :: x in items;
      assert forall x | x in items :: x == items[0] || x in items[1..];
      rest
  }

  /** The document has a stored line with this key. */
  predicate OwnsLine(lines: seq<LineItem>, docId: int, key: int) {
    exists x | x in lines :: x.documentId == docId && x.id == key
  }

  /** The key of the first sent row that names a line of another document or
      no line at all. */
  function ForeignRow(items: seq<LineItem>, lines: seq<LineItem>, docId: int): (r: Option<int>)
    ensures r.None? <==> forall x | x in items && x.id != 0 :: OwnsLine(lines, docId, x.id)
    ensures r.Some? ==> r.value != 0 && !OwnsLine(lines, docId, r.value)
                        && exists x | x in items :: x.id == r.value
    // the key reported is the first offending one in request order
    ensures r.Some? ==> exists k | 0 <= k < |items| :: items[k].id == r.value
                          && forall j | 0 <= j < k :: items[j].id == 0 || OwnsLine(lines, docId, items[j].id)
  {
    if items == [] then None
    else if items[0].id != 0 && !OwnsLine(lines, docId, items[0].id) then
      assert items[0] in items;
      Some(items[0].id)
    else
      var rest := ForeignRow(items[1..], lines, docId);
      assert forall x | x in items[1..] :: x in items;
      assert forall x | x in items :: x == items[0] || x in items[1..];
      if rest.Some? then
        var k :| 0 <= k < |items[1..]| && items[1..][k].id == rest.value
                 && forall j | 0 <= j < k :: items[1..][j].id == 0 || OwnsLine(lines, docId, items[1..][j].id);
        assert items[k + 1].id == rest.value;
        assert forall j | 0 <= j < k + 1 :: items[j].id == 0 || OwnsLine(lines, docId, items[j].id) by {
          forall j | 0 <= j < k + 1 ensures items[j].id == 0 || OwnsLine(lines, docId, items[j].id) {
            if j > 0 { assert items[j] == items[1..][j - 1]; }
          }
        }
        rest
      else rest
  }

  /** A stored line after taking the resource, unit, time and count of the
      row sent for it. */
  function Apply(line: LineItem, sent: LineItem): LineItem {
    line.(resourceId := sent.resourceId, unitId := sent.unitId, dateTime := sent.dateTime, count := sent.count)
  }

  /** The lines of all documents after the update of one: lines of other
      documents stay; a line of this document with a sent key takes the sent
      values; its other lines are deleted. */
  function SyncLines(lines: seq<LineItem>, docId: int, items: seq<LineItem>): (r: seq<LineItem>)
    ensures forall x | x in lines && x.documentId != docId :: x in r
    ensures forall x | x in lines && x.documentId == docId && SentRow(items, x.id).Some? ::
      Apply(x, SentRow(items, x.id).value) in r
    ensures forall y | y in r ::
      exists x | x in lines :: x.id == y.id && x.documentId == y.documentId &&
        (if x.documentId == docId then SentRow(items, x.id).Some? && y == Apply(x, SentRow(items, x.id).value)
         else y == x)
    ensures |r| <= |lines|
  {
    if lines == [] then []
    else
      var x := lines[0];
      var rest := SyncLines(lines[1..], docId, items);
      assert forall z | z in lines[1..] :: z in lines;
      assert forall z | z in lines :: z == x || z in lines[1..];
      var head := if x.documentId != docId then [x]
                  else match SentRow(items, x.id)
                       case Some(s) => [Apply(x, s)]
                       case None => [];
      head + rest
  }

  /** A line whose key no other line has keeps the keys unique. */
  lemma ConsUnique(h: LineItem, rest: seq<LineItem>)
    requires UniqueItemIds(rest) && forall k | 0 <= k < |rest| :: rest[k].id != h.id
    ensures UniqueItemIds([h] + rest)
  {
    var r := [h] + rest;
    forall i, j | 0 <= i < j < |r| ensures r[i].id != r[j].id {
      assert r[j] == rest[j - 1];
      if i > 0 {
        assert r[i] == rest[i - 1];
      }
    }
  }

  /** Synchronising keeps line keys unique. */
  lemma {:induction false} SyncLinesUnique(lines: seq<LineItem>, docId: int, items: seq<LineItem>)
    requires UniqueItemIds(lines)
    ensures UniqueItemIds(SyncLines(lines, docId, items))
  {
    if lines != [] {
      var x := lines[0];
      var rest := SyncLines(lines[1..], docId, items);
      SyncLinesUnique(lines[1..], docId, items);
      forall k | 0 <= k < |rest| ensures rest[k].id != x.id {
        assert rest[k] in rest;
        var z :| z in lines[1..] && z.id == rest[k].id;
        var m :| 0 <= m < |lines[1..]| && lines[1..][m] == z;
        assert lines[m + 1] == z;
      }
      var r := SyncLines(lines, docId, items);
      if r != rest {
        assert r == [r[0]] + rest && r[0].id == x.id;
        ConsUnique(r[0], rest);
      }
    }
  }

  /** The rows the update inserts: the sent rows with key 0. */
  function NewRows(items: seq<LineItem>): (rows: seq<LineItem>)
    ensures forall x :: x in rows <==> x in items && x.id == 0
    // each key-0 row as often as it was sent, and nothing else
    ensures forall x :: multiset(rows)[x] == if x.id == 0 then multiset(items)[x] else 0
  {
    if items == [] then []
    else
      var rest := NewRows(items[1..]);
      assert items == [items[0]] + items[1..];
      (if items[0].id == 0 then [items[0]] else []) + rest
  }

  /** `UpdateWithItems`: the header takes the sent fields; the document's
      lines are synchronised with the sent rows in one transaction. */
  function UpdateWithItems(st: Store, id: int, d: Document, items: seq<LineItem>): (o: Outcome)
    ensures !NumberPresent(d.number) ==> o.response == ValidationProblem([NumberRequired])
    ensures o.response == NotFound <==> NumberPresent(d.number) && !HasDocument(st.documents, id)
    ensures NumberPresent(d.number) && HasDocument(st.documents, id) && !HeaderRefsExist(st.refs, d) ==>
      o.response == ValidationProblem(DocumentFkErrors(st.refs, d))
    ensures NumberPresent(d.number) && HasDocument(st.documents, id) && HeaderRefsExist(st.refs, d)
            && ItemsErrors(st.refs, items, ForUpdate) != [] ==>
      o.response == ValidationProblem(ItemsErrors(st.refs, items, ForUpdate))
    ensures o.response.ServerError? <==>
      && NumberPresent(d.number) && HasDocument(st.documents, id) && HeaderRefsExist(st.refs, d)
      && ItemsErrors(st.refs, items, ForUpdate) == []
      && (|| !NoRepeats(SentKeys(items))
          || (&& ForeignRow(items, st.items, id).None?
              && !FreshKeys(AssignIds(ItemIds(NewRows(items)), st.nextItemId).0, st.items)))
    ensures o.response.ValidationProblem? && NumberPresent(d.number) && HeaderRefsExist(st.refs, d)
            && ItemsErrors(st.refs, items, ForUpdate) == [] ==>
      && ForeignRow(items, st.items, id).Some?
      && o.response == ValidationProblem([RowNotInDocument(ForeignRow(items, st.items, id).value, id)])
    ensures o.response.NoContent? || o.response.ValidationProblem? || o.response.NotFound? || o.response.ServerError?
    ensures !o.response.ServerError? && !Succeeded(o.response) ==> o.store == st
    // repeated keys fail before the save; a failed save has drawn a key for
    // every row sent with key 0
    ensures o.response.ServerError? ==>
      && RolledBack(st, o.store) && o.store.nextDocumentId == st.nextDocumentId
      && o.store.nextItemId == (if NoRepeats(SentKeys(items)) then st.nextItemId + |NewRows(items)| else st.nextItemId)
    ensures o.response.NoContent? ==>
      var added := NewRows(items);
      var ids := AssignIds(ItemIds(added), st.nextItemId);
      && NumberPresent(d.number) && HasDocument(st.documents, id) && HeaderRefsExist(st.refs, d)
      && ItemsErrors(st.refs, items, ForUpdate) == [] && NoRepeats(SentKeys(items))
      && ForeignRow(items, st.items, id).None? && FreshKeys(ids.0, st.items)
      && o.store == st.(documents := ReplaceHeader(st.documents, d.(id := id)),
                        items := SyncLines(st.items, id, items) + Stamp(added, ids.0, id),
                        nextItemId := ids.1)
  {
    if !NumberPresent(d.number) then Outcome(ValidationProblem([NumberRequired]), st)
    else if !HasDocument(st.documents, id) then Outcome(NotFound, st)
    else if !HeaderRefsExist(st.refs, d) then Outcome(ValidationProblem(DocumentFkErrors(st.refs, d)), st)
    else
      var rowErrors := ItemsErrors(st.refs, items, ForUpdate);
      if rowErrors != [] then Outcome(ValidationProblem(rowErrors), st)
      else if !NoRepeats(SentKeys(items)) then Outcome(ServerError, st)
      else match ForeignRow(items, st.items, id)
        case Some(key) => Outcome(ValidationProblem([RowNotInDocument(key, id)]), st)
        case None =>
          var added := NewRows(items);
          var ids := AssignIds(ItemIds(added), st.nextItemId);
          if !FreshKeys(ids.0, st.items) then
            assert forall x | x in added :: x.id == 0;
            assert forall i | 0 <= i < |added| :: ItemIds(added)[i] == 0 by {
              forall i | 0 <= i < |added| ensures ItemIds(added)[i] == 0 { assert added[i] in added; }
            }
            AssignIdsAllDrawn(ItemIds(added), st.nextItemId);
            Outcome(ServerError, st.(nextItemId := ids.1))
          else
            Outcome(NoContent, st.(documents := ReplaceHeader(st.documents, d.(id := id)),
                                   items := SyncLines(st.items, id, items) + Stamp(added, ids.0, id),
                                   nextItemId := ids.1))
  }

  // ---------------------------------------------------------------------
  // Every action keeps the tables well formed

  /** Appending a header with a new key keeps document keys unique and every
      line's document stored. */
  lemma AddHeaderWellFormed(st: Store, d: Document)
    requires WellFormed(st) && !HasDocument(st.documents, d.id)
    ensures UniqueDocumentIds(st.documents + [d])
    ensures forall it | it in st.items :: HasDocument(st.documents + [d], it.documentId)
  {
    var docs := st.documents + [d];
    forall i | 0 <= i < |st.documents| ensures docs[i].id != d.id {
      assert st.documents[i] in st.documents;
    }
    forall it | it in st.items ensures HasDocument(docs, it.documentId) {
      var e :| e in st.documents && e.id == it.documentId;
      assert e in docs;
    }
  }

  lemma PostDocumentWellFormed(st: Store, d: Document)
    requires WellFormed(st)
    ensures WellFormed(PostDocument(st, d).store)
  {
    var o := PostDocument(st, d);
    if o.response.Ok? {
      AddHeaderWellFormed(st, d.(id := o.response.id));
    }
  }

  /** Replacing a header keeps every key where it was. */
  lemma ReplaceHeaderKeys(docs: seq<Document>, d: Document, lines: seq<LineItem>)
    requires forall it | it in lines :: HasDocument(docs, it.documentId)
    ensures UniqueDocumentIds(docs) ==> UniqueDocumentIds(ReplaceHeader(docs, d))
    ensures forall it | it in lines :: HasDocument(ReplaceHeader(docs, d), it.documentId)
  {
    var r := ReplaceHeader(docs, d);
    assert forall i | 0 <= i < |docs| :: r[i].id == docs[i].id;
    forall it | it in lines ensures HasDocument(r, it.documentId) {
      var e :| e in docs && e.id == it.documentId;
      var i :| 0 <= i < |docs| && docs[i] == e;
      assert r[i] in r;
    }
  }

  lemma PutDocumentWellFormed(st: Store, id: int, d: Document)
    requires WellFormed(st)
    ensures WellFormed(PutDocument(st, id, d).store)
  {
    ReplaceHeaderKeys(st.documents, d, st.items);
  }

  lemma DeleteDocumentWellFormed(st: Store, id: int)
    requires WellFormed(st)
    ensures WellFormed(DeleteDocument(st, id).store)
  {
    var o := DeleteDocument(st, id);
    if o.response.NoContent? {
      forall it | it in o.store.items ensures HasDocument(o.store.documents, it.documentId) {
        var e :| e in st.documents && e.id == it.documentId;
        assert e in o.store.documents;
      }
    }
  }

  /** Inserted rows with new, pairwise different keys keep line keys unique;
      rows stamped with a stored document's key belong to a stored document. */
  lemma AddRowsWellFormed(docs: seq<Document>, lines: seq<LineItem>, rows: seq<LineItem>, docId: int)
    requires UniqueItemIds(lines) && forall it | it in lines :: HasDocument(docs, it.documentId)
    requires FreshKeys(ItemIds(rows), lines) && HasDocument(docs, docId)
    requires forall r | r in rows :: r.documentId == docId
    ensures UniqueItemIds(lines + rows)
    ensures forall it | it in lines + rows :: HasDocument(docs, it.documentId)
  {
    var all := lines + rows;
    forall i, j | 0 <= i < j < |all| ensures all[i].id != all[j].id {
      if j >= |lines| && i < |lines| {
        assert ItemIds(rows)[j - |lines|] == all[j].id;
        assert all[i] in lines;
      } else if i >= |lines| {
        assert ItemIds(rows)[i - |lines|] == all[i].id;
        assert ItemIds(rows)[j - |lines|] == all[j].id;
      }
    }
  }

  lemma StampIds(items: seq<LineItem>, ids: seq<int>, docId: int)
    requires |ids| == |items|
    ensures ItemIds(Stamp(items, ids, docId)) == ids
    ensures forall r | r in Stamp(items, ids, docId) :: r.documentId == docId
  {
  }

  lemma CreateWithItemsWellFormed(st: Store, d: Document, items: seq<LineItem>)
    requires WellFormed(st)
    ensures WellFormed(CreateWithItems(st, d, items).store)
  {
    var o := CreateWithItems(st, d, items);
    if o.response.Ok? {
      var docId := o.response.id;
      var docs := st.documents + [d.(id := docId)];
      AddHeaderWellFormed(st, d.(id := docId));
      var ids := AssignIds(ItemIds(items), st.nextItemId);
      StampIds(items, ids.0, docId);
      assert d.(id := docId) in docs;
      AddRowsWellFormed(docs, st.items, Stamp(items, ids.0, docId), docId);
    }
  }

  /** Synchronising invents no key and no document. */
  lemma SyncLinesKeys(lines: seq<LineItem>, docId: int, items: seq<LineItem>, docs: seq<Document>)
    ensures forall k | !HasItem(lines, k) :: !HasItem(SyncLines(lines, docId, items), k)
    ensures (forall it | it in lines :: HasDocument(docs, it.documentId)) ==>
      forall y | y in SyncLines(lines, docId, items) :: HasDocument(docs, y.documentId)
  {
    var kept := SyncLines(lines, docId, items);
    forall k | HasItem(kept, k) ensures HasItem(lines, k) {
      var y :| y in kept && y.id == k;
      var x :| x in lines && x.id == y.id && x.documentId == y.documentId;
    }
    if forall it | it in lines :: HasDocument(docs, it.documentId) {
      forall y | y in kept ensures HasDocument(docs, y.documentId) {
        var x :| x in lines && x.id == y.id && x.documentId == y.documentId;
      }
    }
  }

  lemma UpdateWithItemsWellFormed(st: Store, id: int, d: Document, items: seq<LineItem>)
    requires WellFormed(st)
    ensures WellFormed(UpdateWithItems(st, id, d, items).store)
  {
    var o := UpdateWithItems(st, id, d, items);
    if o.response.NoContent? {
      var docs := ReplaceHeader(st.documents, d.(id := id));
      var kept := SyncLines(st.items, id, items);
      ReplaceHeaderKeys(st.documents, d.(id := id), st.items);
      SyncLinesUnique(st.items, id, items);
      SyncLinesKeys(st.items, id, items, docs);
      var added := NewRows(items);
      var ids := AssignIds(ItemIds(added), st.nextItemId);
      StampIds(added, ids.0, id);
      assert FreshKeys(ids.0, kept);
      var e :| e in st.documents && e.id == id;
      var i :| 0 <= i < |st.documents| && st.documents[i] == e;
      assert docs[i] in docs;
      AddRowsWellFormed(docs, kept, Stamp(added, ids.0, id), id);
    }
  }

  // ---------------------------------------------------------------------
  // The rows after a successful save

  /** A saved document with rows: the table keeps its lines and gains one
      line per sent row, in order, each belonging to the new document, with
      the sent resource, unit, time and count, an existing resource and unit,
      a count of at least one, and the sent key when one was sent. */
  lemma CreateWithItemsRows(st: Store, d: Document, items: seq<LineItem>)
    ensures var o := CreateWithItems(st, d, items);
      o.response.Ok? ==>
        && HasDocument(o.store.documents, o.response.id)
        && |o.store.items| == |st.items| + |items|
        && o.store.items[..|st.items|] == st.items
        && forall i | 0 <= i < |items| ::
             var row := o.store.items[|st.items| + i];
             && row.documentId == o.response.id
             && row.resourceId == items[i].resourceId && row.unitId == items[i].unitId
             && row.dateTime == items[i].dateTime && row.count == items[i].count
             && row.resourceId in st.refs.resources && row.unitId in st.refs.units && row.count >= 1
             && (items[i].id != 0 ==> row.id == items[i].id)
  {
    var o := CreateWithItems(st, d, items);
    if o.response.Ok? {
      var docs := o.store.documents;
      assert docs[|docs| - 1] in docs;
      forall i | 0 <= i < |items| ensures RowRefsValid(st.refs, items[i]) {
        assert items[i] in items;
      }
    }
  }

  /** A line of the document whose key was not sent leaves no line with its
      key behind. */
  lemma SyncDeletes(lines: seq<LineItem>, docId: int, items: seq<LineItem>, x: LineItem)
    requires UniqueItemIds(lines) && x in lines && x.documentId == docId && SentRow(items, x.id).None?
    ensures !HasItem(SyncLines(lines, docId, items), x.id)
  {
  }

  /** A synchronised line of another document is one stored before. */
  lemma SyncKeepsOthers(lines: seq<LineItem>, docId: int, items: seq<LineItem>, y: LineItem)
    requires y in SyncLines(lines, docId, items) && y.documentId != docId
    ensures y in lines
  {
  }

  /** Every sent row with key 0 is stored as a line of the document under a
      new key. */
  lemma NewRowStored(lines: seq<LineItem>, items: seq<LineItem>, ids: seq<int>, docId: int, r: LineItem)
    requires |ids| == |NewRows(items)| && FreshKeys(ids, lines)
    requires r in items && r.id == 0
    ensures exists y | y in Stamp(NewRows(items), ids, docId) ::
              && y.documentId == docId && !HasItem(lines, y.id)
              && y.resourceId == r.resourceId && y.unitId == r.unitId
              && y.dateTime == r.dateTime && y.count == r.count
  {
    var added := NewRows(items);
    var rows := Stamp(added, ids, docId);
    assert r in added;
    var k :| 0 <= k < |added| && added[k] == r;
    assert rows[k] in rows;
  }

  /** The table after an update of document `id` ends with exactly one new
      line per sent row with key 0, in request order, each under a key not
      stored before and pairwise different; every line before them carries a
      key stored before, and those of the document hold the sent values of a
      line it owned. */
  ghost predicate UpdateTail(st: Store, id: int, items: seq<LineItem>, after: seq<LineItem>) {
    var added := NewRows(items);
    && |added| <= |after|
    && NewLines(st, id, added, after[|after| - |added|..])
    && KeptLines(st, id, items, after[..|after| - |added|])
  }

  /** Lines inserted for `added`, one each and in order, with its values,
      under pairwise different keys not stored before. */
  ghost predicate NewLines(st: Store, id: int, added: seq<LineItem>, tail: seq<LineItem>) {
    && |tail| == |added|
    && (forall i | 0 <= i < |tail| ::
          && tail[i].documentId == id && !HasItem(st.items, tail[i].id)
          && tail[i].resourceId == added[i].resourceId && tail[i].unitId == added[i].unitId
          && tail[i].dateTime == added[i].dateTime && tail[i].count == added[i].count)
    && (forall i, j | 0 <= i < j < |tail| :: tail[i].id != tail[j].id)
  }

  /** Lines under keys stored before; those of document `id` hold the sent
      values of a line it owned. */
  ghost predicate KeptLines(st: Store, id: int, items: seq<LineItem>, head: seq<LineItem>) {
    && (forall y | y in head :: HasItem(st.items, y.id))
    && (forall y | y in head && y.documentId == id ::
          exists x | x in st.items && x.documentId == id ::
            SentRow(items, x.id).Some? && y == Apply(x, SentRow(items, x.id).value))
  }

  lemma StampNewLines(st: Store, id: int, added: seq<LineItem>, ids: seq<int>)
    requires |ids| == |added| && FreshKeys(ids, st.items)
    ensures NewLines(st, id, added, Stamp(added, ids, id))
  {
    var rows := Stamp(added, ids, id);
    forall i | 0 <= i < |rows| ensures rows[i].id == ids[i] {
    }
  }

  lemma SyncKeptLines(st: Store, id: int, items: seq<LineItem>)
    ensures KeptLines(st, id, items, SyncLines(st.items, id, items))
  {
    forall y | y in SyncLines(st.items, id, items) ensures HasItem(st.items, y.id) {
      var x :| x in st.items && x.id == y.id && x.documentId == y.documentId;
    }
  }

  /** The synchronised lines followed by the stamped new rows have that
      shape. */
  lemma UpdateTailOf(st: Store, id: int, items: seq<LineItem>, ids: seq<int>)
    requires |ids| == |NewRows(items)| && FreshKeys(ids, st.items)
    ensures UpdateTail(st, id, items, SyncLines(st.items, id, items) + Stamp(NewRows(items), ids, id))
  {
    var kept := SyncLines(st.items, id, items);
    var rows := Stamp(NewRows(items), ids, id);
    var after := kept + rows;
    assert after[..|after| - |rows|] == kept;
    assert after[|after| - |rows|..] == rows;
    StampNewLines(st, id, NewRows(items), ids);
    SyncKeptLines(st, id, items);
  }

  /** After a successful update the document's lines are synchronised with
      the sent rows: a line whose key was not sent is gone, a line whose key
      was sent holds the sent values, every sent row with key 0 is a new line
      of the document under a key not used before, and the lines of other
      documents are untouched. */
  lemma UpdateWithItemsRows(st: Store, id: int, d: Document, items: seq<LineItem>)
    requires WellFormed(st)
    ensures var o := UpdateWithItems(st, id, d, items);
      o.response.NoContent? ==>
        && (forall x | x in st.items && x.documentId == id && SentRow(items, x.id).None? ::
              !HasItem(o.store.items, x.id))
        && (forall x | x in st.items && x.documentId == id && SentRow(items, x.id).Some? ::
              Apply(x, SentRow(items, x.id).value) in o.store.items)
        && (forall r | r in items && r.id == 0 ::
              exists y | y in o.store.items ::
                && y.documentId == id && !HasItem(st.items, y.id)
                && y.resourceId == r.resourceId && y.unitId == r.unitId
                && y.dateTime == r.dateTime && y.count == r.count)
        && (forall x | x in st.items && x.documentId != id :: x in o.store.items)
        && (forall y | y in o.store.items && y.documentId != id :: y in st.items)
        && UpdateTail(st, id, items, o.store.items)
  {
    var o := UpdateWithItems(st, id, d, items);
    if o.response.NoContent? {
      var kept := SyncLines(st.items, id, items);
      var added := NewRows(items);
      var ids := AssignIds(ItemIds(added), st.nextItemId);
      var rows := Stamp(added, ids.0, id);
      assert o.store.items == kept + rows;
      StampIds(added, ids.0, id);
      UpdateTailOf(st, id, items, ids.0);
      forall x | x in st.items && x.documentId == id && SentRow(items, x.id).None?
        ensures !HasItem(o.store.items, x.id)
      {
        SyncDeletes(st.items, id, items, x);
        assert HasItem(st.items, x.id);
        forall k | 0 <= k < |rows| ensures rows[k].id != x.id {
          assert ItemIds(rows)[k] == rows[k].id;
        }
      }
      forall r | r in items && r.id == 0
        ensures exists y | y in o.store.items ::
                  && y.documentId == id && !HasItem(st.items, y.id)
                  && y.resourceId == r.resourceId && y.unitId == r.unitId
                  && y.dateTime == r.dateTime && y.count == r.count
      {
        NewRowStored(st.items, items, ids.0, id, r);
      }
      forall y | y in o.store.items && y.documentId != id ensures y in st.items {
        if y in kept {
          SyncKeepsOthers(st.items, id, items, y);
        }
      }
    }
  }
}
