/** The balance report (`BalanceReportService.GetBalancesAsync` without its
    cache): line items joined to their documents, restricted to receipts and
    shipments, filtered by resource and unit, grouped by (resource, unit),
    summed with the sign of the document type, joined to the display names
    and ordered by resource name, then unit name. */
module BalanceReport {
  import opened Wrappers
  import opened Seqs
  import opened Sorting
  import opened Ledger

  /** One row of the join of a line item with its document:
      `{ ResourceId, UnitId, Count, TypeDocId }`. */
  datatype Entry = Entry(resourceId: int, unitId: int, count: int, typeDocId: int)

  /** A resource or unit filter as the caller passes it (`int[]?`). */
  type Filter = Option<seq<int>>

  /** A grouping key: (resource id, unit id). */
  type GroupKey = (int, int)

  /** A missing or empty filter admits every id; otherwise only its members. */
  predicate Admits(f: Filter, id: int) {
    f.None? || |f.value| == 0 || id in f.value
  }

  /** The ids a filter names; the empty set for a missing filter. */
  ghost function FilterSet(f: Filter): set<int> {
    if f.None? then {} else set x | x in f.value
  }

  /** Documents whose lines move stock: receipts and shipments. */
  predicate Moves(d: Document) {
    d.typeDocId == Receipt || d.typeDocId == Shipment
  }

  function EntryOf(it: LineItem, d: Document): Entry {
    Entry(it.resourceId, it.unitId, it.count, d.typeDocId)
  }

  /** The join rows of one line item: one for each receipt or shipment
      document carrying the line's document id. */
  function JoinItem(it: LineItem, docs: seq<Document>): seq<Entry> {
    if docs == [] then []
    else
      (if docs[0].id == it.documentId && Moves(docs[0]) then [EntryOf(it, docs[0])] else [])
      + JoinItem(it, docs[1..])
  }

  /** A line joins exactly the receipt and shipment documents carrying its
      document id. */
  lemma {:induction false} JoinItemSpec(it: LineItem, docs: seq<Document>)
    ensures forall e | e in JoinItem(it, docs) ::
              exists d | d in docs :: d.id == it.documentId && Moves(d) && e == EntryOf(it, d)
    ensures forall d | d in docs && d.id == it.documentId && Moves(d) :: EntryOf(it, d) in JoinItem(it, docs)
  {
    if docs != [] {
      JoinItemSpec(it, docs[1..]);
      assert forall d | d in docs[1..] :: d in docs;
      assert forall d | d in docs :: d == docs[0] || d in docs[1..];
    }
  }

  /** The join rows of one line item that pass both filters. */
  function ItemEntries(it: LineItem, docs: seq<Document>, rf: Filter, uf: Filter): seq<Entry> {
    if Admits(rf, it.resourceId) && Admits(uf, it.unitId) then JoinItem(it, docs) else []
  }

  /** The filtered join of all line items with their documents (`q` after
      both `Where` clauses). */
  function Selected(items: seq<LineItem>, docs: seq<Document>, rf: Filter, uf: Filter): seq<Entry> {
    if items == [] then [] else ItemEntries(items[0], docs, rf, uf) + Selected(items[1..], docs, rf, uf)
  }

  function Key(e: Entry): GroupKey {
    (e.resourceId, e.unitId)
  }

  /** A receipt adds its count, a shipment subtracts it. */
  function Signed(e: Entry): int {
    if e.typeDocId == Receipt then e.count else -e.count
  }

  /** The signed sum of a group: `g.Sum(z => z.Count * (receipt ? 1 : -1))`. */
  function GroupSum(es: seq<Entry>, k: GroupKey): int {
    if es == [] then 0 else (if Key(es[0]) == k then Signed(es[0]) else 0) + GroupSum(es[1..], k)
  }

  /** Total count of the group's rows of one document type. */
  function TypeTotal(es: seq<Entry>, k: GroupKey, typeDocId: int): int {
    if es == [] then 0
    else (if Key(es[0]) == k && es[0].typeDocId == typeDocId then es[0].count else 0) + TypeTotal(es[1..], k, typeDocId)
  }

  function Keys(es: seq<Entry>): (ks: seq<GroupKey>)
    ensures |ks| == |es| && forall i :: 0 <= i < |es| ==> ks[i] == Key(es[i])
  {
    if es == [] then [] else [Key(es[0])] + Keys(es[1..])
  }

  /** The groups of `group x by { ResourceId, UnitId }`, each once. */
  function GroupKeys(es: seq<Entry>): seq<GroupKey> {
    Dedup(Keys(es))
  }

  /** Both names of a group resolve (the inner joins with `Resource` and `Unit`). */
  predicate Resolves(refs: Refs, k: GroupKey) {
    k.0 in refs.resources && k.1 in refs.units
  }

  function MakeRow(refs: Refs, es: seq<Entry>, k: GroupKey): BalanceRow
    requires Resolves(refs, k)
  {
    BalanceRow(k.0, refs.resources[k.0], k.1, refs.units[k.1], GroupSum(es, k))
  }

  function RowKey(r: BalanceRow): GroupKey {
    (r.resourceId, r.unitId)
  }

  /** The report rows of the given groups, dropping groups whose resource or
      unit does not resolve. */
  function Resolve(keys: seq<GroupKey>, es: seq<Entry>, refs: Refs): (rows: seq<BalanceRow>)
    ensures forall r | r in rows :: RowKey(r) in keys && Resolves(refs, RowKey(r)) && r == MakeRow(refs, es, RowKey(r))
    ensures forall k | k in keys && Resolves(refs, k) :: MakeRow(refs, es, k) in rows
    ensures Distinct(keys) ==> Distinct(rows)
  {
    if keys == [] then []
    else
      var rest := Resolve(keys[1..], es, refs);
      assert forall k | k in keys[1..] :: k in keys;
      assert forall k | k in keys :: k == keys[0] || k in keys[1..];
      if Resolves(refs, keys[0]) then
        var r := MakeRow(refs, es, keys[0]);
        assert Distinct(keys) ==> keys[0] !in keys[1..];
        [r] + rest
      else rest
  }

  /** Collation of display names: a strict total order on strings. */
  ghost predicate StrictTotalOrder(lt: (string, string) -> bool) {
    && (forall a :: !lt(a, a))
    && (forall a, b, c :: lt(a, b) && lt(b, c) ==> lt(a, c))
    && (forall a, b :: a != b ==> lt(a, b) || lt(b, a))
  }

  /** `orderby r.Name, u.Name`; rows with equal names, which SQL leaves in
      no particular order, are placed by resource id and then unit id. */
  predicate RowLe(lt: (string, string) -> bool, a: BalanceRow, b: BalanceRow) {
    if a.resourceName != b.resourceName then lt(a.resourceName, b.resourceName)
    else if a.unitName != b.unitName then lt(a.unitName, b.unitName)
    else if a.resourceId != b.resourceId then a.resourceId < b.resourceId
    else a.unitId <= b.unitId
  }

  function RowOrder(lt: (string, string) -> bool): (BalanceRow, BalanceRow) -> bool {
    (a: BalanceRow, b: BalanceRow) => RowLe(lt, a, b)
  }

  /** The balance report of the stored ledger for the given filters. */
  function Report(st: Store, rf: Filter, uf: Filter, lt: (string, string) -> bool): seq<BalanceRow> {
    var es := Selected(st.items, st.documents, rf, uf);
    Sort(RowOrder(lt), Resolve(GroupKeys(es), es, st.refs))
  }

  // ---------------------------------------------------------------------
  // The filtered join

  /** The join keeps exactly the (line, document) pairs where the line
      belongs to a receipt or shipment and passes both filters. */
  lemma {:induction false} SelectedSpec(items: seq<LineItem>, docs: seq<Document>, rf: Filter, uf: Filter)
    ensures forall e | e in Selected(items, docs, rf, uf) ::
              (e.typeDocId == Receipt || e.typeDocId == Shipment) && Admits(rf, e.resourceId) && Admits(uf, e.unitId)
    ensures forall e | e in Selected(items, docs, rf, uf) ::
              exists it | it in items :: Admits(rf, it.resourceId) && Admits(uf, it.unitId) && e in JoinItem(it, docs)
    ensures forall it, d | it in items && d in docs && it.documentId == d.id && Moves(d) && Admits(rf, it.resourceId) && Admits(uf, it.unitId) ::
              EntryOf(it, d) in Selected(items, docs, rf, uf)
  {
    if items != [] {
      SelectedSpec(items[1..], docs, rf, uf);
      JoinItemSpec(items[0], docs);
      assert forall it | it in items :: it == items[0] || it in items[1..];
      assert forall it | it in items[1..] :: it in items;
    }
  }

  lemma {:induction false} SelectedAppend(a: seq<LineItem>, b: seq<LineItem>, docs: seq<Document>, rf: Filter, uf: Filter)
    ensures Selected(a + b, docs, rf, uf) == Selected(a, docs, rf, uf) + Selected(b, docs, rf, uf)
  {
    if a != [] {
      assert (a + b)[0] == a[0] && (a + b)[1..] == a[1..] + b;
      SelectedAppend(a[1..], b, docs, rf, uf);
    } else {
      assert a + b == b;
    }
  }

  /** Taking one line out of the middle of the list takes its join rows out. */
  lemma SelectedWithout(pre: seq<LineItem>, x: LineItem, post: seq<LineItem>, docs: seq<Document>, rf: Filter, uf: Filter)
    ensures multiset(Selected(pre + ([x] + post), docs, rf, uf))
         == multiset(Selected(pre + post, docs, rf, uf)) + multiset(ItemEntries(x, docs, rf, uf))
  {
    var mid := [x] + post;
    SelectedAppend(pre, post, docs, rf, uf);
    SelectedAppend(pre, mid, docs, rf, uf);
    assert mid[0] == x && mid[1..] == post;
    assert Selected(mid, docs, rf, uf) == ItemEntries(x, docs, rf, uf) + Selected(post, docs, rf, uf);
  }

  /** One step of `SelectedPermutation`: the first line of `a` sits at
      position `i` of `b`, and the rest of `a` joins like `b` without it. */
  lemma SelectedPermutationStep(a: seq<LineItem>, b: seq<LineItem>, i: nat, docs: seq<Document>, rf: Filter, uf: Filter)
    requires a != [] && i < |b| && b[i] == a[0]
    requires multiset(Selected(a[1..], docs, rf, uf)) == multiset(Selected(b[..i] + b[i + 1..], docs, rf, uf))
    ensures multiset(Selected(a, docs, rf, uf)) == multiset(Selected(b, docs, rf, uf))
  {
    SplitAround(b, i);
    var pre, post := b[..i], b[i + 1..];
    var head := ItemEntries(a[0], docs, rf, uf);
    var rest := Selected(a[1..], docs, rf, uf);
    assert Selected(a, docs, rf, uf) == head + rest;
    assert multiset(head + rest) == multiset(head) + multiset(rest);
    SelectedWithout(pre, a[0], post, docs, rf, uf);
  }

  /** Reordering the line items reorders the join rows and nothing else. */
  lemma {:induction false} SelectedPermutation(a: seq<LineItem>, b: seq<LineItem>, docs: seq<Document>, rf: Filter, uf: Filter)
    requires multiset(a) == multiset(b)
    ensures multiset(Selected(a, docs, rf, uf)) == multiset(Selected(b, docs, rf, uf))
    decreases |a|
  {
    if a == [] {
      assert |b| == |multiset(b)| == 0;
    } else {
      var i := PermutationHead(a, b);
      SelectedPermutation(a[1..], b[..i] + b[i + 1..], docs, rf, uf);
      SelectedPermutationStep(a, b, i, docs, rf, uf);
    }
  }

  // ---------------------------------------------------------------------
  // Signed sums

  lemma {:induction false} GroupSumAppend(a: seq<Entry>, b: seq<Entry>, k: GroupKey)
    ensures GroupSum(a + b, k) == GroupSum(a, k) + GroupSum(b, k)
  {
    if a != [] {
      assert (a + b)[0] == a[0] && (a + b)[1..] == a[1..] + b;
      GroupSumAppend(a[1..], b, k);
    } else {
      assert a + b == b;
    }
  }

  /** The signed sum of a group does not depend on the order of the rows. */
  lemma {:induction false} GroupSumPermutation(a: seq<Entry>, b: seq<Entry>, k: GroupKey)
    requires multiset(a) == multiset(b)
    ensures GroupSum(a, k) == GroupSum(b, k)
    decreases |a|
  {
    if a == [] {
      assert |b| == |multiset(b)| == 0;
    } else {
      var i := PermutationHead(a, b);
      var pre, post := b[..i], b[i + 1..];
      GroupSumPermutation(a[1..], pre + post, k);
      GroupSumAppend(pre, post, k);
      GroupSumAppend(pre, [b[i]] + post, k);
      assert ([b[i]] + post)[0] == b[i] && ([b[i]] + post)[1..] == post;
      assert b == pre + ([b[i]] + post);
    }
  }

  /** Over receipts and shipments, a group's signed sum is its receipt total
      minus its shipment total. */
  lemma {:induction false} GroupSumIsReceiptsMinusShipments(es: seq<Entry>, k: GroupKey)
    requires forall e | e in es :: e.typeDocId == Receipt || e.typeDocId == Shipment
    ensures GroupSum(es, k) == TypeTotal(es, k, Receipt) - TypeTotal(es, k, Shipment)
  {
    if es != [] {
      assert forall e | e in es[1..] :: e in es;
      GroupSumIsReceiptsMinusShipments(es[1..], k);
    }
  }

  /** With 32-bit counts, a group of fewer than 2^32 rows sums to a value a
      64-bit `long` holds. */
  lemma {:induction false} GroupSumBound(es: seq<Entry>, k: GroupKey)
    requires forall e | e in es :: -0x8000_0000 <= e.count <= 0x7FFF_FFFF
    ensures -0x8000_0000 * |es| <= GroupSum(es, k) <= 0x8000_0000 * |es|
  {
    if es != [] {
      assert forall e | e in es[1..] :: e in es;
      GroupSumBound(es[1..], k);
    }
  }

  // ---------------------------------------------------------------------
  // Ordering

  lemma RowOrderIsTotalPreorder(lt: (string, string) -> bool)
    requires StrictTotalOrder(lt)
    ensures TotalPreorder(RowOrder(lt))
  {
    forall a: BalanceRow, b: BalanceRow, c: BalanceRow | RowLe(lt, a, b) && RowLe(lt, b, c)
      ensures RowLe(lt, a, c)
    {
      if a.resourceName != c.resourceName {
        if a.resourceName == b.resourceName || b.resourceName == c.resourceName {
        } else {
          assert lt(a.resourceName, b.resourceName) && lt(b.resourceName, c.resourceName);
        }
      } else if a.unitName != c.unitName {
        if a.unitName == b.unitName || b.unitName == c.unitName {
        } else {
          assert lt(a.unitName, b.unitName) && lt(b.unitName, c.unitName);
        }
      }
    }
  }

  /** Two rows may each come before the other only if they agree on names and
      on both ids. */
  lemma RowOrderAntisymmetric(lt: (string, string) -> bool, a: BalanceRow, b: BalanceRow)
    requires StrictTotalOrder(lt)
    requires RowLe(lt, a, b) && RowLe(lt, b, a)
    ensures a.resourceName == b.resourceName && a.unitName == b.unitName && RowKey(a) == RowKey(b)
  {
  }

  // ---------------------------------------------------------------------
  // The report

  /** Rows that share a key are the same row. */
  ghost predicate KeyDetermined(rows: seq<BalanceRow>) {
    forall r1, r2 | r1 in rows && r2 in rows && RowKey(r1) == RowKey(r2) :: r1 == r2
  }

  /** Sorting two lists of the same distinct rows gives the same report. */
  lemma SortedRowsUnique(lt: (string, string) -> bool, xs: seq<BalanceRow>, ys: seq<BalanceRow>)
    requires StrictTotalOrder(lt)
    requires Distinct(xs) && Distinct(ys) && KeyDetermined(xs)
    requires forall r | r in xs :: r in ys
    requires forall r | r in ys :: r in xs
    ensures Sort(RowOrder(lt), xs) == Sort(RowOrder(lt), ys)
  {
    var le := RowOrder(lt);
    var sx, sy := Sort(le, xs), Sort(le, ys);
    SameElementsPermutation(xs, ys);
    RowOrderIsTotalPreorder(lt);
    SortSorted(le, xs);
    SortSorted(le, ys);
    forall i, j | 0 <= i < |sx| && 0 <= j < |sx| && le(sx[i], sx[j]) && le(sx[j], sx[i])
      ensures sx[i] == sx[j]
    {
      RowOrderAntisymmetric(lt, sx[i], sx[j]);
      assert sx[i] in multiset(xs) && sx[j] in multiset(xs);
    }
    SortedUnique(le, sx, sy);
  }

  /** The report is a rearrangement of the resolved groups. */
  lemma ReportPermutesGroups(st: Store, rf: Filter, uf: Filter, lt: (string, string) -> bool)
    ensures var es := Selected(st.items, st.documents, rf, uf);
            multiset(Report(st, rf, uf, lt)) == multiset(Resolve(GroupKeys(es), es, st.refs))
  {
  }

  /** Every report row is a group of the filtered join whose resource and
      unit both resolve; it carries their names and the group's receipts
      minus its shipments. */
  lemma ReportRowsAreGroups(st: Store, rf: Filter, uf: Filter, lt: (string, string) -> bool)
    ensures var es := Selected(st.items, st.documents, rf, uf);
            forall r | r in Report(st, rf, uf, lt) ::
              && RowKey(r) in Keys(es)
              && r.resourceId in st.refs.resources && r.resourceName == st.refs.resources[r.resourceId]
              && r.unitId in st.refs.units && r.unitName == st.refs.units[r.unitId]
              && r.quantity == TypeTotal(es, RowKey(r), Receipt) - TypeTotal(es, RowKey(r), Shipment)
  {
    var es := Selected(st.items, st.documents, rf, uf);
    var res := Resolve(GroupKeys(es), es, st.refs);
    var R := Report(st, rf, uf, lt);
    ReportPermutesGroups(st, rf, uf, lt);
    SelectedSpec(st.items, st.documents, rf, uf);
    forall r | r in R
      ensures RowKey(r) in Keys(es)
      ensures r.resourceId in st.refs.resources && r.resourceName == st.refs.resources[r.resourceId]
      ensures r.unitId in st.refs.units && r.unitName == st.refs.units[r.unitId]
      ensures r.quantity == TypeTotal(es, RowKey(r), Receipt) - TypeTotal(es, RowKey(r), Shipment)
    {
      assert r in multiset(res);
      GroupSumIsReceiptsMinusShipments(es, RowKey(r));
    }
  }

  /** Every group of the filtered join whose names resolve has a row. */
  lemma ReportCoversGroups(st: Store, rf: Filter, uf: Filter, lt: (string, string) -> bool)
    ensures var es := Selected(st.items, st.documents, rf, uf);
            forall e | e in es && Resolves(st.refs, Key(e)) :: MakeRow(st.refs, es, Key(e)) in Report(st, rf, uf, lt)
  {
    var es := Selected(st.items, st.documents, rf, uf);
    var res := Resolve(GroupKeys(es), es, st.refs);
    ReportPermutesGroups(st, rf, uf, lt);
    forall e | e in es && Resolves(st.refs, Key(e))
      ensures MakeRow(st.refs, es, Key(e)) in Report(st, rf, uf, lt)
    {
      var i :| 0 <= i < |es| && es[i] == e;
      assert Keys(es)[i] == Key(e);
      assert MakeRow(st.refs, es, Key(e)) in multiset(res);
    }
  }

  /** No group has two rows. */
  lemma ReportKeysDistinct(st: Store, rf: Filter, uf: Filter, lt: (string, string) -> bool)
    ensures var R := Report(st, rf, uf, lt);
            forall i, j :: 0 <= i < j < |R| ==> RowKey(R[i]) != RowKey(R[j])
  {
    var es := Selected(st.items, st.documents, rf, uf);
    var res := Resolve(GroupKeys(es), es, st.refs);
    var R := Report(st, rf, uf, lt);
    ReportPermutesGroups(st, rf, uf, lt);
    DistinctPermutation(res, R);
    forall i, j | 0 <= i < j < |R| ensures RowKey(R[i]) != RowKey(R[j]) {
      assert R[i] in multiset(res) && R[j] in multiset(res);
    }
  }

  /** The report has exactly one row per resolvable group of the filtered
      join, carrying its names and its receipts minus its shipments. */
  lemma ReportRows(st: Store, rf: Filter, uf: Filter, lt: (string, string) -> bool)
    ensures var es := Selected(st.items, st.documents, rf, uf);
            forall r | r in Report(st, rf, uf, lt) ::
              && RowKey(r) in Keys(es)
              && r.resourceId in st.refs.resources && r.resourceName == st.refs.resources[r.resourceId]
              && r.unitId in st.refs.units && r.unitName == st.refs.units[r.unitId]
              && r.quantity == TypeTotal(es, RowKey(r), Receipt) - TypeTotal(es, RowKey(r), Shipment)
    ensures var es := Selected(st.items, st.documents, rf, uf);
            forall e | e in es && Resolves(st.refs, Key(e)) :: MakeRow(st.refs, es, Key(e)) in Report(st, rf, uf, lt)
    ensures var R := Report(st, rf, uf, lt);
            forall i, j :: 0 <= i < j < |R| ==> RowKey(R[i]) != RowKey(R[j])
  {
    ReportRowsAreGroups(st, rf, uf, lt);
    ReportCoversGroups(st, rf, uf, lt);
    ReportKeysDistinct(st, rf, uf, lt);
  }

  /** The report is ordered by resource name, then by unit name. */
  lemma ReportSorted(st: Store, rf: Filter, uf: Filter, lt: (string, string) -> bool)
    requires StrictTotalOrder(lt)
    ensures var R := Report(st, rf, uf, lt);
            forall i, j :: 0 <= i < j < |R| ==>
              && !lt(R[j].resourceName, R[i].resourceName)
              && (R[i].resourceName == R[j].resourceName ==> !lt(R[j].unitName, R[i].unitName))
  {
    var es := Selected(st.items, st.documents, rf, uf);
    var R := Report(st, rf, uf, lt);
    RowOrderIsTotalPreorder(lt);
    SortSorted(RowOrder(lt), Resolve(GroupKeys(es), es, st.refs));
    forall i, j | 0 <= i < j < |R|
      ensures !lt(R[j].resourceName, R[i].resourceName)
      ensures R[i].resourceName == R[j].resourceName ==> !lt(R[j].unitName, R[i].unitName)
    {
      assert RowLe(lt, R[i], R[j]);
    }
  }

  /** The report does not depend on the order of the line items. */
  lemma ReportIgnoresItemOrder(st1: Store, st2: Store, rf: Filter, uf: Filter, lt: (string, string) -> bool)
    requires StrictTotalOrder(lt)
    requires st1.documents == st2.documents && st1.refs == st2.refs
    requires multiset(st1.items) == multiset(st2.items)
    ensures Report(st1, rf, uf, lt) == Report(st2, rf, uf, lt)
  {
    var refs := st1.refs;
    var es1 := Selected(st1.items, st1.documents, rf, uf);
    var es2 := Selected(st2.items, st2.documents, rf, uf);
    SelectedPermutation(st1.items, st2.items, st1.documents, rf, uf);
    forall k ensures GroupSum(es1, k) == GroupSum(es2, k) {
      GroupSumPermutation(es1, es2, k);
    }
    var res1 := Resolve(GroupKeys(es1), es1, refs);
    var res2 := Resolve(GroupKeys(es2), es2, refs);
    forall r | r in res1 ensures r in res2 {
      var i :| 0 <= i < |es1| && Keys(es1)[i] == RowKey(r);
      assert es1[i] in multiset(es2);
      var j :| 0 <= j < |es2| && es2[j] == es1[i];
      assert Keys(es2)[j] == RowKey(r);
    }
    forall r | r in res2 ensures r in res1 {
      var j :| 0 <= j < |es2| && Keys(es2)[j] == RowKey(r);
      assert es2[j] in multiset(es1);
      var i :| 0 <= i < |es1| && es1[i] == es2[j];
      assert Keys(es1)[i] == RowKey(r);
    }
    SortedRowsUnique(lt, res1, res2);
  }

  lemma {:induction false} SelectedSameAdmission(items: seq<LineItem>, docs: seq<Document>, rf1: Filter, uf1: Filter, rf2: Filter, uf2: Filter)
    requires forall id :: Admits(rf1, id) == Admits(rf2, id)
    requires forall id :: Admits(uf1, id) == Admits(uf2, id)
    ensures Selected(items, docs, rf1, uf1) == Selected(items, docs, rf2, uf2)
  {
    if items != [] {
      SelectedSameAdmission(items[1..], docs, rf1, uf1, rf2, uf2);
    }
  }

  lemma AdmitsBySet(f: Filter, id: int)
    ensures Admits(f, id) <==> FilterSet(f) == {} || id in FilterSet(f)
  {
    if f.Some? && |f.value| > 0 {
      assert f.value[0] in FilterSet(f);
    }
  }

  /** Filters act only through the sets of ids they name: order and
      repetition do not matter, and a missing filter acts as an empty one. */
  lemma ReportDependsOnFilterSets(st: Store, rf1: Filter, uf1: Filter, rf2: Filter, uf2: Filter, lt: (string, string) -> bool)
    requires FilterSet(rf1) == FilterSet(rf2) && FilterSet(uf1) == FilterSet(uf2)
    ensures Report(st, rf1, uf1, lt) == Report(st, rf2, uf2, lt)
  {
    forall id ensures Admits(rf1, id) == Admits(rf2, id) && Admits(uf1, id) == Admits(uf2, id) {
      AdmitsBySet(rf1, id);
      AdmitsBySet(rf2, id);
      AdmitsBySet(uf1, id);
      AdmitsBySet(uf2, id);
    }
    SelectedSameAdmission(st.items, st.documents, rf1, uf1, rf2, uf2);
  }

  /** A filter keeps exactly the unfiltered join rows whose id it admits. */
  lemma {:induction false} FilterKeepsAdmitted(items: seq<LineItem>, docs: seq<Document>, rf: Filter, uf: Filter)
    ensures forall e :: e in Selected(items, docs, rf, uf) <==>
              e in Selected(items, docs, None, None) && Admits(rf, e.resourceId) && Admits(uf, e.unitId)
  {
    if items != [] {
      FilterKeepsAdmitted(items[1..], docs, rf, uf);
      JoinItemSpec(items[0], docs);
    }
  }

  /** A non-empty filter that names no stored line empties the report. */
  lemma {:induction false} NoMatchingLines(items: seq<LineItem>, docs: seq<Document>, xs: seq<int>, uf: Filter)
    requires |xs| > 0 && forall it | it in items :: it.resourceId !in xs
    ensures Selected(items, docs, Some(xs), uf) == []
  {
    if items != [] {
      NoMatchingLines(items[1..], docs, xs, uf);
    }
  }

  /** An empty resource filter means "every resource", not "no resource":
      whenever the unfiltered report has rows, it differs from the report of
      a filter that matches nothing. */
  lemma EmptyFilterIsNotNoMatch(st: Store, xs: seq<int>, uf: Filter, lt: (string, string) -> bool)
    requires |xs| > 0 && forall it | it in st.items :: it.resourceId !in xs
    requires Report(st, None, uf, lt) != []
    ensures Report(st, Some([]), uf, lt) == Report(st, None, uf, lt)
    ensures Report(st, Some(xs), uf, lt) == []
  {
    ReportDependsOnFilterSets(st, Some([]), uf, None, uf, lt);
    NoMatchingLines(st.items, st.documents, xs, uf);
    assert Keys([]) == [];
  }

  lemma {:induction false} NoMovingDocumentNoJoin(it: LineItem, docs: seq<Document>)
    requires forall d | d in docs && d.id == it.documentId :: !Moves(d)
    ensures JoinItem(it, docs) == []
  {
    if docs != [] {
      NoMovingDocumentNoJoin(it, docs[1..]);
    }
  }

  /** Lines of documents that are neither receipts nor shipments (or of no
      stored document) do not change any balance. */
  lemma OnlyReceiptsAndShipmentsCount(st: Store, it: LineItem, rf: Filter, uf: Filter, lt: (string, string) -> bool)
    requires forall d | d in st.documents && d.id == it.documentId :: !Moves(d)
    ensures Report(st.(items := st.items + [it]), rf, uf, lt) == Report(st, rf, uf, lt)
  {
    NoMovingDocumentNoJoin(it, st.documents);
    SelectedAppend(st.items, [it], st.documents, rf, uf);
    assert [it][1..] == [];
    assert Selected([it], st.documents, rf, uf) == [];
    assert Selected(st.items + [it], st.documents, rf, uf) == Selected(st.items, st.documents, rf, uf);
  }

  lemma {:induction false} JoinItemIgnoresCondition(it: LineItem, docs1: seq<Document>, docs2: seq<Document>)
    requires |docs1| == |docs2|
    requires forall i :: 0 <= i < |docs1| ==> docs2[i] == docs1[i].(conditionId := docs2[i].conditionId)
    ensures JoinItem(it, docs1) == JoinItem(it, docs2)
  {
    if docs1 != [] {
      JoinItemIgnoresCondition(it, docs1[1..], docs2[1..]);
    }
  }

  lemma {:induction false} SelectedIgnoresCondition(items: seq<LineItem>, docs1: seq<Document>, docs2: seq<Document>, rf: Filter, uf: Filter)
    requires |docs1| == |docs2|
    requires forall i :: 0 <= i < |docs1| ==> docs2[i] == docs1[i].(conditionId := docs2[i].conditionId)
    ensures Selected(items, docs1, rf, uf) == Selected(items, docs2, rf, uf)
  {
    if items != [] {
      JoinItemIgnoresCondition(items[0], docs1, docs2);
      SelectedIgnoresCondition(items[1..], docs1, docs2, rf, uf);
    }
  }

  /** A document's condition (its signing status) plays no part in the
      report: changing any documents' conditions leaves it unchanged. */
  lemma ConditionDoesNotCount(st: Store, docs: seq<Document>, rf: Filter, uf: Filter, lt: (string, string) -> bool)
    requires |docs| == |st.documents|
    requires forall i :: 0 <= i < |docs| ==> docs[i] == st.documents[i].(conditionId := docs[i].conditionId)
    ensures Report(st.(documents := docs), rf, uf, lt) == Report(st, rf, uf, lt)
  {
    SelectedIgnoresCondition(st.items, st.documents, docs, rf, uf);
  }

  /** When every selected line falls in one group whose names resolve, the
      report is that group's single row. */
  lemma SingleGroupReport(st: Store, rf: Filter, uf: Filter, lt: (string, string) -> bool, k: GroupKey)
    requires var es := Selected(st.items, st.documents, rf, uf);
      es != [] && Resolves(st.refs, k) && forall e | e in es :: Key(e) == k
    ensures Report(st, rf, uf, lt) == [MakeRow(st.refs, Selected(st.items, st.documents, rf, uf), k)]
  {
    var es := Selected(st.items, st.documents, rf, uf);
    var R := Report(st, rf, uf, lt);
    var row := MakeRow(st.refs, es, k);
    ReportRows(st, rf, uf, lt);
    SelectedSpec(st.items, st.documents, rf, uf);
    GroupSumIsReceiptsMinusShipments(es, k);
    assert es[0] in es;
    assert row in R;
    forall r | r in R ensures r == row {
      var i :| 0 <= i < |Keys(es)| && Keys(es)[i] == RowKey(r);
      assert es[i] in es;
    }
    assert Distinct(R);
    DistinctConstant(R, row);
  }
}
