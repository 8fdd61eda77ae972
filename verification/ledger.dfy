/** The records the system stores, as plain values: documents (receipts and
    shipments), their line items, and the reference dictionaries a document
    and its rows point into. Dates are day numbers and time stamps are
    integers; identifiers are the database's integer keys. */
module Ledger {

  /** `TypeDocKind`: the document types that move stock. */
  const Receipt: int := 1
  const Shipment: int := 2

  /** A document header (`Document`). */
  datatype Document = Document(
    id: int,
    typeDocId: int,
    clientId: int,
    conditionId: int,
    number: string,
    date: int)

  /** A document line (`Document_resource`): `count` units of a resource. */
  datatype LineItem = LineItem(
    id: int,
    dateTime: int,
    documentId: int,
    resourceId: int,
    unitId: int,
    count: int)

  /** The reference dictionaries: which ids exist, and the display names of
      resources and units. */
  datatype Refs = Refs(
    typeDocs: set<int>,
    clients: set<int>,
    conditions: set<int>,
    resources: map<int, string>,
    units: map<int, string>)

  /** The stored tables, plus the next values of the two identity sequences
      the database draws generated keys from. */
  datatype Store = Store(
    documents: seq<Document>,
    items: seq<LineItem>,
    refs: Refs,
    nextDocumentId: int,
    nextItemId: int)

  /** One line of the balance report (`BalanceRowDto`). */
  datatype BalanceRow = BalanceRow(
    resourceId: int,
    resourceName: string,
    unitId: int,
    unitName: string,
    quantity: int)

  /** The primary keys of both tables are unique, and every line belongs to
      a stored document (the foreign key of `Document_resource`). */
  ghost predicate WellFormed(st: Store) {
    && UniqueDocumentIds(st.documents)
    && UniqueItemIds(st.items)
    && (forall it | it in st.items :: HasDocument(st.documents, it.documentId))
  }

  ghost predicate UniqueDocumentIds(docs: seq<Document>) {
    forall i, j :: 0 <= i < j < |docs| ==> docs[i].id != docs[j].id
  }

  ghost predicate UniqueItemIds(items: seq<LineItem>) {
    forall i, j :: 0 <= i < j < |items| ==> items[i].id != items[j].id
  }

  predicate HasDocument(docs: seq<Document>, id: int) {
    exists d | d in docs :: d.id == id
  }

  predicate HasItem(items: seq<LineItem>, id: int) {
    exists it | it in items :: it.id == id
  }
}
