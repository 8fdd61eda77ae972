/** Worked runs of the model on small warehouses: the signed sum of one
    group, a receipt and a shipment seen through the cache, and the stale
    entry a filtered balance request keeps after a write. */
module Scenarios {
  import opened Wrappers
  import opened Text
  import opened Ledger
  import opened BalanceReport
  import opened BalanceCache
  import opened Documents
  import opened WriteService

  /** The tables with one resource (bolts), one unit (pieces), both document
      types, and no document yet. */
  function EmptyWarehouse(): Store {
    Store([], [], Refs({Receipt, Shipment}, {1}, {1}, map[1 := "Bolt"], map[1 := "pcs"]), 1, 1)
  }

  /** Creating a document with one line when neither key is taken: both get
      the next keys of their sequences. */
  lemma CreateOneLine(st: Store, d: Document, line: LineItem)
    requires d.id == 0 && line.id == 0 && line.documentId == 0
    requires NumberPresent(d.number) && HeaderRefsExist(st.refs, d) && RowRefsValid(st.refs, line)
    requires !HasDocument(st.documents, st.nextDocumentId) && !HasItem(st.items, st.nextItemId)
    ensures Execute(st, PostWithItems(d, [line]))
         == Outcome(Ok(st.nextDocumentId),
                    st.(documents := st.documents + [d.(id := st.nextDocumentId)],
                        items := st.items + [line.(id := st.nextItemId, documentId := st.nextDocumentId)],
                        nextDocumentId := st.nextDocumentId + 1,
                        nextItemId := st.nextItemId + 1))
  {
    var items := [line];
    assert ItemsErrors(st.refs, items, ForCreate) == [];
    OneNewKey(line, st.nextItemId);
    assert FreshKeys([st.nextItemId], st.items);
    assert Stamp(items, [st.nextItemId], st.nextDocumentId) == [line.(id := st.nextItemId, documentId := st.nextDocumentId)];
  }

  /** One row sent with key 0 draws exactly the sequence's next value. */
  lemma OneNewKey(line: LineItem, next: int)
    requires line.id == 0
    ensures AssignIds(ItemIds([line]), next) == ([next], next + 1)
  {
    assert ItemIds([line]) == [0];
    var ids := [0];
    assert ids[0] == 0 && ids[1..] == [];
    assert AssignIds(ids[1..], next + 1) == ([], next + 1);
    assert AssignIds(ids, next) == ([next] + [], next + 1);
    assert [next] + [] == [next];
  }

  // ---------------------------------------------------------------------
  // Signs

  /** With two moving documents 1 and 2, a line of document 1 joins the
      first and a line of document 2 the second. */
  lemma TwoDocuments(docs: seq<Document>, a: LineItem, b: LineItem)
    requires |docs| == 2 && docs[0].id == 1 && docs[1].id == 2 && Moves(docs[0]) && Moves(docs[1])
    requires a.documentId == 1 && b.documentId == 2
    ensures JoinItem(a, docs) == [EntryOf(a, docs[0])]
    ensures JoinItem(b, docs) == [EntryOf(b, docs[1])]
  {
    var tail := docs[1..];
    assert tail[0] == docs[1] && tail[1..] == [];
    assert JoinItem(a, tail[1..]) == [] && JoinItem(b, tail[1..]) == [];
    assert JoinItem(a, tail) == [] + [];
    assert JoinItem(b, tail) == [EntryOf(b, docs[1])] + [];
    assert JoinItem(a, docs) == [EntryOf(a, docs[0])] + [] + [];
    assert JoinItem(b, docs) == [] + [EntryOf(b, docs[1])];
  }

  /** One line of the one moving document it belongs to, passing both
      filters, joins to one entry. */
  lemma OneLine(items: seq<LineItem>, docs: seq<Document>, rf: Filter, uf: Filter)
    requires |items| == 1 && |docs| == 1 && docs[0].id == items[0].documentId && Moves(docs[0])
    requires Admits(rf, items[0].resourceId) && Admits(uf, items[0].unitId)
    ensures Selected(items, docs, rf, uf) == [EntryOf(items[0], docs[0])]
  {
    assert docs[1..] == [] && items[1..] == [];
    assert JoinItem(items[0], docs) == [EntryOf(items[0], docs[0])] + [];
    assert Selected(items, docs, rf, uf) == [EntryOf(items[0], docs[0])] + [];
  }

  /** The unfiltered join of two lines. */
  lemma TwoLines(items: seq<LineItem>, docs: seq<Document>)
    requires |items| == 2
    ensures Selected(items, docs, None, None) == JoinItem(items[0], docs) + JoinItem(items[1], docs)
  {
    var tail := items[1..];
    assert tail[0] == items[1] && tail[1..] == [];
    assert Selected(tail, docs, None, None) == JoinItem(items[1], docs) + [];
  }

  /** The signed sum of a receipt followed by a shipment of one group. */
  lemma InThenOut(es: seq<Entry>, k: GroupKey)
    requires |es| == 2 && Key(es[0]) == k && Key(es[1]) == k
    requires es[0].typeDocId == Receipt && es[1].typeDocId == Shipment
    ensures GroupSum(es, k) == es[0].count - es[1].count
  {
    var tail := es[1..];
    assert tail[0] == es[1] && tail[1..] == [];
    assert GroupSum(tail, k) == -es[1].count + 0;
  }

  /** A receipt of five bolts and a shipment of three. */
  function FiveInThreeOut(): Store {
    EmptyWarehouse().(
      documents := [Document(1, Receipt, 1, 1, "R-1", 0), Document(2, Shipment, 1, 1, "S-1", 1)],
      items := [LineItem(1, 0, 1, 1, 1, 5), LineItem(2, 0, 2, 1, 1, 3)],
      nextDocumentId := 3, nextItemId := 3)
  }

  /** Five in and three out leave two. */
  lemma SignCorrectness(lt: (string, string) -> bool)
    ensures Report(FiveInThreeOut(), None, None, lt) == [BalanceRow(1, "Bolt", 1, "pcs", 2)]
  {
    var st := FiveInThreeOut();
    var es := Selected(st.items, st.documents, None, None);
    TwoDocuments(st.documents, st.items[0], st.items[1]);
    TwoLines(st.items, st.documents);
    assert es == [Entry(1, 1, 5, Receipt)] + [Entry(1, 1, 3, Shipment)];
    InThenOut(es, (1, 1));
    SingleGroupReport(st, None, None, lt, (1, 1));
  }

  // ---------------------------------------------------------------------
  // A receipt and a shipment through the cache

  /** A receipt of ten bolts, then a shipment of four. */
  function ReceiveTen(): Request {
    PostWithItems(Document(0, Receipt, 1, 1, "R-1", 0), [LineItem(0, 0, 0, 1, 1, 10)])
  }

  function ShipFour(): Request {
    PostWithItems(Document(0, Shipment, 1, 1, "S-1", 1), [LineItem(0, 0, 0, 1, 1, 4)])
  }

  function AfterTen(): Store {
    EmptyWarehouse().(documents := [Document(1, Receipt, 1, 1, "R-1", 0)],
                      items := [LineItem(1, 0, 1, 1, 1, 10)],
                      nextDocumentId := 2, nextItemId := 2)
  }

  function AfterFour(): Store {
    AfterTen().(documents := AfterTen().documents + [Document(2, Shipment, 1, 1, "S-1", 1)],
                items := AfterTen().items + [LineItem(2, 0, 2, 1, 1, 4)],
                nextDocumentId := 3, nextItemId := 3)
  }

  lemma TenSaved()
    ensures Execute(EmptyWarehouse(), ReceiveTen()) == Outcome(Ok(1), AfterTen())
  {
    var d := Document(0, Receipt, 1, 1, "R-1", 0);
    assert !IsWhiteSpace(d.number[0]);
    CreateOneLine(EmptyWarehouse(), d, LineItem(0, 0, 0, 1, 1, 10));
  }

  lemma FourSaved()
    ensures Execute(AfterTen(), ShipFour()) == Outcome(Ok(2), AfterFour())
  {
    var d := Document(0, Shipment, 1, 1, "S-1", 1);
    assert !IsWhiteSpace(d.number[0]);
    CreateOneLine(AfterTen(), d, LineItem(0, 0, 0, 1, 1, 4));
  }

  lemma TenInReport(lt: (string, string) -> bool)
    ensures Report(AfterTen(), None, None, lt) == [BalanceRow(1, "Bolt", 1, "pcs", 10)]
  {
    var st := AfterTen();
    var es := Selected(st.items, st.documents, None, None);
    OneLine(st.items, st.documents, None, None);
    assert es == [Entry(1, 1, 10, Receipt)];
    assert GroupSum(es, (1, 1)) == 10;
    SingleGroupReport(st, None, None, lt, (1, 1));
  }

  lemma SixInReport(lt: (string, string) -> bool)
    ensures Report(AfterFour(), None, None, lt) == [BalanceRow(1, "Bolt", 1, "pcs", 6)]
  {
    var st := AfterFour();
    var es := Selected(st.items, st.documents, None, None);
    TwoDocuments(st.documents, st.items[0], st.items[1]);
    TwoLines(st.items, st.documents);
    assert es == [Entry(1, 1, 10, Receipt)] + [Entry(1, 1, 4, Shipment)];
    InThenOut(es, (1, 1));
    SingleGroupReport(st, None, None, lt, (1, 1));
  }

  /** Receive ten bolts, ask for all balances, ship four, ask again: the
      unfiltered entry is evicted by the shipment, so the second answer
      is six. */
  lemma ReceiptThenShipment(lt: (string, string) -> bool)
    ensures var sv0 := Service(EmptyWarehouse(), map[]);
      var sv1 := HandleAsWritten(sv0, ReceiveTen()).1;
      var read1 := ReadBalances(sv1, None, None, lt);
      var sv2 := HandleAsWritten(read1.1, ShipFour()).1;
      && read1.0 == [BalanceRow(1, "Bolt", 1, "pcs", 10)]
      && ReadBalances(sv2, None, None, lt).0 == [BalanceRow(1, "Bolt", 1, "pcs", 6)]
  {
    var sv0 := Service(EmptyWarehouse(), map[]);
    TenSaved();
    var sv1 := HandleAsWritten(sv0, ReceiveTen()).1;
    assert sv1 == Service(AfterTen(), map[]);
    TenInReport(lt);
    var read1 := ReadBalances(sv1, None, None, lt);
    UnfilteredKey();
    assert read1.1 == Service(AfterTen(), map["balances:r=all:u=all" := BalanceList([BalanceRow(1, "Bolt", 1, "pcs", 10)])]);
    FourSaved();
    var sv2 := HandleAsWritten(read1.1, ShipFour()).1;
    assert sv2.cache == map[];
    SixInReport(lt);
  }

  // ---------------------------------------------------------------------
  // The stale filtered entry

  /** A receipt of five bolts. */
  function BoltReceipt(): Request {
    PostWithItems(Document(0, Receipt, 1, 1, "R-1", 0), [LineItem(0, 0, 0, 1, 1, 5)])
  }

  function AfterBoltReceipt(): Store {
    EmptyWarehouse().(documents := [Document(1, Receipt, 1, 1, "R-1", 0)],
                      items := [LineItem(1, 0, 1, 1, 1, 5)],
                      nextDocumentId := 2, nextItemId := 2)
  }

  lemma BoltReceiptSaved()
    ensures Execute(EmptyWarehouse(), BoltReceipt()) == Outcome(Ok(1), AfterBoltReceipt())
  {
    var d := Document(0, Receipt, 1, 1, "R-1", 0);
    assert !IsWhiteSpace(d.number[0]);
    CreateOneLine(EmptyWarehouse(), d, LineItem(0, 0, 0, 1, 1, 5));
  }

  lemma EmptyReport(st: Store, rf: Filter, uf: Filter, lt: (string, string) -> bool)
    requires st.items == []
    ensures Report(st, rf, uf, lt) == []
  {
    assert Selected(st.items, st.documents, rf, uf) == [];
    assert Keys([]) == [];
  }

  /** Empty balance lists are coherent with tables that have no lines. */
  lemma EmptyListsCoherent(c: Cache, st: Store, lt: (string, string) -> bool)
    requires st.items == []
    requires forall k | k in c :: c[k] == BalanceList([])
    ensures Coherent(c, st, lt)
  {
    forall rf: Filter, uf: Filter ensures Report(st, rf, uf, lt) == [] {
      EmptyReport(st, rf, uf, lt);
    }
  }

  lemma BoltsInReport(lt: (string, string) -> bool)
    ensures Report(AfterBoltReceipt(), Some([1]), None, lt) == [BalanceRow(1, "Bolt", 1, "pcs", 5)]
  {
    var st := AfterBoltReceipt();
    var es := Selected(st.items, st.documents, Some([1]), None);
    assert Admits(Some([1]), 1);
    OneLine(st.items, st.documents, Some([1]), None);
    assert es == [Entry(1, 1, 5, Receipt)];
    assert GroupSum(es, (1, 1)) == 5;
    SingleGroupReport(st, Some([1]), None, lt, (1, 1));
  }

  /** A coherent cache, one receipt through the controller as written, and
      the balance request for that resource still gets the list cached before
      the receipt: empty, while the report now has the five bolts. */
  lemma StaleBalanceAfterReceipt(lt: (string, string) -> bool)
    ensures var sv := Service(EmptyWarehouse(), map[CacheKey(Some([1]), None) := BalanceList([])]);
      && Coherent(sv.cache, sv.store, lt)
      && var after := HandleAsWritten(sv, BoltReceipt()).1;
      && ReadBalances(after, Some([1]), None, lt).0 == []
      && Report(after.store, Some([1]), None, lt) == [BalanceRow(1, "Bolt", 1, "pcs", 5)]
  {
    var st := EmptyWarehouse();
    var c := map[CacheKey(Some([1]), None) := BalanceList([])];
    EmptyListsCoherent(c, st, lt);
    var sv := Service(st, c);
    BoltReceiptSaved();
    assert 1 in FilterSet(Some([1]));
    HandleAsWrittenKeepsFilteredEntries(sv, BoltReceipt(), Some([1]), None);
    BoltsInReport(lt);
  }
}
