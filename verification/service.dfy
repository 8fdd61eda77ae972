/** The documents controller and the balance report service together: the
    tables and the shared memory cache, a write request that changes the
    tables and then invalidates the cache, and a balance request served
    through the cache. */
module WriteService {
  import opened Wrappers
  import opened Ledger
  import opened BalanceReport
  import opened BalanceCache
  import opened Documents

  /** The write endpoints of `DocumentsController`. */
  datatype Request =
    | Post(document: Document)
    | Put(id: int, document: Document)
    | Delete(id: int)
    | PostWithItems(document: Document, items: seq<LineItem>)
    | PutWithItems(id: int, document: Document, items: seq<LineItem>)

  /** The action a request reaches. */
  function Execute(st: Store, req: Request): (o: Outcome)
    ensures !Succeeded(o.response) ==> RolledBack(st, o.store)
    ensures !Succeeded(o.response) && !o.response.ServerError? ==> o.store == st
    ensures o.store.refs == st.refs
  {
    match req
    case Post(d) => PostDocument(st, d)
    case Put(id, d) => PutDocument(st, id, d)
    case Delete(id) => DeleteDocument(st, id)
    case PostWithItems(d, items) => CreateWithItems(st, d, items)
    case PutWithItems(id, d, items) => UpdateWithItems(st, id, d, items)
  }

  /** No write breaks the keys of the tables. */
  lemma ExecuteWellFormed(st: Store, req: Request)
    requires WellFormed(st)
    ensures WellFormed(Execute(st, req).store)
  {
    match req
    case Post(d) => PostDocumentWellFormed(st, d);
    case Put(id, d) => PutDocumentWellFormed(st, id, d);
    case Delete(id) => DeleteDocumentWellFormed(st, id);
    case PostWithItems(d, items) => CreateWithItemsWellFormed(st, d, items);
    case PutWithItems(id, d, items) => UpdateWithItemsWellFormed(st, id, d, items);
  }

  /** The tables and the process-wide memory cache. */
  datatype Service = Service(store: Store, cache: Cache)

  /** A balance request (`GetBalancesAsync`). */
  function ReadBalances(sv: Service, rf: Filter, uf: Filter, lt: (string, string) -> bool)
    : (r: (seq<BalanceRow>, Service))
    ensures r.1.store == sv.store
    ensures r.1.cache == GetBalances(sv.cache, sv.store, rf, uf, lt).1
    ensures r.0 == GetBalances(sv.cache, sv.store, rf, uf, lt).0
  {
    var g := GetBalances(sv.cache, sv.store, rf, uf, lt);
    (g.0, Service(sv.store, g.1))
  }

  /** A write as the controller performs it: after a successful save,
      `InvalidateBalancesCache()` with no arguments. */
  function HandleAsWritten(sv: Service, req: Request): (r: (Response, Service))
    ensures r.0 == Execute(sv.store, req).response
    ensures !Succeeded(r.0) ==> r.1.cache == sv.cache && RolledBack(sv.store, r.1.store)
    ensures Succeeded(r.0) ==>
      && r.1.store == Execute(sv.store, req).store
      && r.1.cache == Remove(sv.cache, "balances:r=all:u=all")
  {
    var o := Execute(sv.store, req);
    InvalidateAllArgumentsMissing(sv.cache);
    if Succeeded(o.response) then (o.response, Service(o.store, InvalidateBalancesCache(sv.cache, None, None)))
    else (o.response, Service(o.store, sv.cache))
  }

  /** A write that drops every balance list after a successful save. */
  function Handle(sv: Service, req: Request): (r: (Response, Service))
    ensures r.0 == Execute(sv.store, req).response
    ensures !Succeeded(r.0) ==> r.1.cache == sv.cache && RolledBack(sv.store, r.1.store)
    ensures Succeeded(r.0) ==>
      && r.1.store == Execute(sv.store, req).store
      && (forall rf: Filter, uf: Filter {:trigger CacheKey(rf, uf)} :: CacheKey(rf, uf) !in r.1.cache)
      && (ContextKey in sv.cache ==> ContextKey in r.1.cache && r.1.cache[ContextKey] == sv.cache[ContextKey])
  {
    var o := Execute(sv.store, req);
    ContextKeyIsNotBalanceKey();
    if Succeeded(o.response) then (o.response, Service(o.store, InvalidateAllBalances(sv.cache)))
    else (o.response, Service(o.store, sv.cache))
  }

  // ---------------------------------------------------------------------
  // The cache after a write

  /** As written, a successful write leaves every entry whose request named
      resources or units in the cache. */
  lemma HandleAsWrittenKeepsFilteredEntries(sv: Service, req: Request, rf: Filter, uf: Filter)
    requires CacheKey(rf, uf) in sv.cache
    requires FilterSet(rf) != {} || FilterSet(uf) != {}
    ensures var r := HandleAsWritten(sv, req);
      CacheKey(rf, uf) in r.1.cache && r.1.cache[CacheKey(rf, uf)] == sv.cache[CacheKey(rf, uf)]
  {
    UnfilteredKey();
    CacheKeyIff(rf, uf, None, None);
  }

  /** A rolled-back write leaves every report as it was. */
  lemma RolledBackReport(st: Store, after: Store, lt: (string, string) -> bool)
    requires RolledBack(st, after)
    ensures forall rf: Filter, uf: Filter :: Report(after, rf, uf, lt) == Report(st, rf, uf, lt)
  {
  }

  /** Dropping every balance list keeps the cache coherent through any
      write, so every later balance request serves the current report. */
  lemma HandleCoherent(sv: Service, req: Request, lt: (string, string) -> bool)
    requires Coherent(sv.cache, sv.store, lt)
    ensures var after := Handle(sv, req).1;
      Coherent(after.cache, after.store, lt)
  {
    var r := Handle(sv, req);
    if Succeeded(r.0) {
      InvalidateAllCoherent(sv.cache, r.1.store, lt);
    } else {
      RolledBackReport(sv.store, r.1.store, lt);
    }
  }

  /** Through the corrected write, the receipt is seen by the next balance
      request for that resource. */
  lemma FreshBalanceAfterReceipt(sv: Service, req: Request, rf: Filter, uf: Filter, lt: (string, string) -> bool)
    requires Coherent(sv.cache, sv.store, lt)
    ensures var after := Handle(sv, req).1;
      ReadBalances(after, rf, uf, lt).0 == Report(after.store, rf, uf, lt)
  {
    HandleCoherent(sv, req, lt);
    var after := Handle(sv, req).1;
    GetBalancesCoherent(after.cache, after.store, rf, uf, lt);
  }
}
