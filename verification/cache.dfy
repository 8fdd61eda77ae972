/** The balance cache of `BalanceReportService`: canonical cache keys
    (`CacheKey` / `Part`), the read-through `GetBalancesAsync`, and
    `InvalidateBalancesCache`. The process-wide memory cache is a map from
    string keys to values; expiry timers are not modelled, but an entry may
    be dropped at any moment (`Expire`). */
module BalanceCache {
  import opened Wrappers
  import opened Seqs
  import opened Sorting
  import opened Text
  import opened Decimal
  import opened Ledger
  import opened BalanceReport

  /** What the memory cache holds under a key: a balance list, or the
      database context that `DocumentsController` parks under `_context`. */
  datatype CacheValue = BalanceList(rows: seq<BalanceRow>) | DbContextHandle

  type Cache = map<string, CacheValue>

  /** The key `DocumentsController` stores its database context under. */
  const ContextKey: string := "_context"

  /** The prefix of every balance key. */
  const KeyHead: string := "balances"

  function IntLe(): (int, int) -> bool {
    (a: int, b: int) => a <= b
  }

  ghost predicate StrictlyIncreasing(xs: seq<int>) {
    forall i, j :: 0 <= i < j < |xs| ==> xs[i] < xs[j]
  }

  /** `a.Distinct().OrderBy(x => x)`: the ids, each once, ascending. */
  function Canonical(ids: seq<int>): (c: seq<int>)
    ensures StrictlyIncreasing(c)
    ensures forall x | x in c :: x in ids
    ensures forall x | x in ids :: x in c
  {
    var d := Dedup(ids);
    var c := Sort(IntLe(), d);
    SortSorted(IntLe(), d);
    DistinctPermutation(d, c);
    assert forall x | x in c :: x in d by {
      forall x | x in c ensures x in d { assert x in multiset(d); }
    }
    assert forall x | x in d :: x in c by {
      forall x | x in d ensures x in c { assert x in multiset(c); }
    }
    c
  }

  /** The ids a filter restricts to, each once, ascending; empty for a missing
      or empty filter. */
  function CanonicalFilter(f: Filter): seq<int> {
    if f.Some? then Canonical(f.value) else []
  }

  function Texts(xs: seq<int>): (ts: seq<string>)
    ensures |ts| == |xs| && forall i :: 0 <= i < |xs| ==> ts[i] == IntText(xs[i])
  {
    if xs == [] then [] else [IntText(xs[0])] + Texts(xs[1..])
  }

  /** `Part`: `all` for a missing or empty filter, otherwise its distinct ids
      in ascending order, comma-separated. */
  function Part(f: Filter): (p: string)
    ensures ':' !in p
  {
    if f.Some? && |f.value| > 0 then
      var ts := Texts(Canonical(f.value));
      assert forall t | t in ts :: ':' !in t;
      JoinNoNewSeparator(ts, ',', ':');
      Join(ts, ',')
    else "all"
  }

  /** `CacheKey`: `balances:r=<resources>:u=<units>`. */
  function CacheKey(rf: Filter, uf: Filter): string {
    KeyHead + ":r=" + Part(rf) + ":u=" + Part(uf)
  }

  /** Joining pieces free of a character with another separator adds no
      occurrence of it. */
  lemma {:induction false} JoinNoNewSeparator(parts: seq<string>, sep: char, c: char)
    requires |parts| >= 1 && sep != c
    requires forall p | p in parts :: c !in p
    ensures c !in Join(parts, sep)
  {
    if |parts| > 1 {
      assert forall p | p in parts[1..] :: p in parts;
      JoinNoNewSeparator(parts[1..], sep, c);
    }
  }

  // ---------------------------------------------------------------------
  // Reading a key back

  function ParseInts(ts: seq<string>): (r: Option<seq<int>>)
    ensures r.Some? ==> |r.value| == |ts|
  {
    if ts == [] then Some([])
    else
      match (ParseInt(ts[0]), ParseInts(ts[1..]))
      case (Some(v), Some(vs)) => Some([v] + vs)
      case _ => None
  }

  /** The ids a `Part` names: none for `all`. */
  function ParsePart(p: string): Option<seq<int>> {
    if p == "all" then Some([]) else ParseInts(Split(p, ','))
  }

  /** The canonical filters a balance key was made from, or `None` for a
      string that is not a balance key. */
  function ParseKey(k: string): Option<(seq<int>, seq<int>)> {
    var parts := Split(k, ':');
    if |parts| == 3 && parts[0] == KeyHead
       && |parts[1]| >= 2 && parts[1][..2] == "r="
       && |parts[2]| >= 2 && parts[2][..2] == "u="
    then
      match (ParsePart(parts[1][2..]), ParsePart(parts[2][2..]))
      case (Some(r), Some(u)) => Some((r, u))
      case _ => None
    else None
  }

  lemma {:induction false} ParseTexts(xs: seq<int>)
    ensures ParseInts(Texts(xs)) == Some(xs)
  {
    if xs != [] {
      ParseIntText(xs[0]);
      ParseTexts(xs[1..]);
      assert Texts(xs)[1..] == Texts(xs[1..]);
      assert [xs[0]] + xs[1..] == xs;
    }
  }

  /** The ids of a non-empty filter, as text, read back as themselves. */
  lemma IdsPartRoundTrip(c: seq<int>)
    requires |c| >= 1
    ensures ParsePart(Join(Texts(c), ',')) == Some(c)
  {
    var ts := Texts(c);
    JoinStartsWithFirstPiece(ts, ',');
    assert Join(ts, ',')[0] != 'a';
    assert forall t | t in ts :: ',' !in t;
    SplitJoin(ts, ',');
    ParseTexts(c);
  }

  /** A part reads back as the canonical form of its filter. */
  lemma PartRoundTrip(f: Filter)
    ensures ParsePart(Part(f)) == Some(CanonicalFilter(f))
  {
    if f.Some? && |f.value| > 0 {
      var c := Canonical(f.value);
      assert f.value[0] in c;
      IdsPartRoundTrip(c);
    } else if f.Some? {
      assert Dedup(f.value) == [];
    }
  }

  /** A key assembled from colon-free parts splits back into its three
      fields. */
  lemma KeyFields(p: string, q: string)
    requires ':' !in p && ':' !in q
    ensures Split(KeyHead + ":r=" + p + ":u=" + q, ':') == [KeyHead, "r=" + p, "u=" + q]
  {
    var r, u := "r=" + p, "u=" + q;
    assert KeyHead + ":r=" + p + ":u=" + q == KeyHead + [':'] + (r + [':'] + u);
    SplitNoSeparator(u, ':');
    SplitAfterPiece(r, ':', u);
    SplitAfterPiece(KeyHead, ':', r + [':'] + u);
  }

  /** A balance key reads back as the canonical forms of both filters. */
  lemma KeyRoundTrip(rf: Filter, uf: Filter)
    ensures ParseKey(CacheKey(rf, uf)) == Some((CanonicalFilter(rf), CanonicalFilter(uf)))
  {
    var p, q := Part(rf), Part(uf);
    KeyFields(p, q);
    var r, u := "r=" + p, "u=" + q;
    assert r[..2] == "r=" && r[2..] == p;
    assert u[..2] == "u=" && u[2..] == q;
    PartRoundTrip(rf);
    PartRoundTrip(uf);
  }

  // ---------------------------------------------------------------------
  // Keys identify filter sets

  /** Two ascending sequences with the same elements are the same sequence. */
  lemma {:induction false} IncreasingBySet(a: seq<int>, b: seq<int>)
    requires StrictlyIncreasing(a) && StrictlyIncreasing(b)
    requires forall x :: x in a <==> x in b
    ensures a == b
  {
    if a != [] {
      assert a[0] in a;
      var k :| 0 <= k < |b| && b[k] == a[0];
      assert b[0] in b;
      var m :| 0 <= m < |a| && a[m] == b[0];
      assert a[0] == b[0];
      forall x ensures x in a[1..] <==> x in b[1..] {
        if x in a[1..] {
          var i :| 1 <= i < |a| && a[i] == x;
          assert x in b;
        }
        if x in b[1..] {
          var i :| 1 <= i < |b| && b[i] == x;
          assert x in a;
        }
      }
      IncreasingBySet(a[1..], b[1..]);
    }
  }

  lemma CanonicalFilterElements(f: Filter)
    ensures forall x :: x in CanonicalFilter(f) <==> x in FilterSet(f)
  {
  }

  /** A part depends on its filter only through the canonical ids. */
  lemma PartOfCanonical(f: Filter)
    ensures CanonicalFilter(f) == [] ==> Part(f) == "all"
    ensures CanonicalFilter(f) != [] ==> Part(f) == Join(Texts(CanonicalFilter(f)), ',')
  {
    if f.Some? && |f.value| > 0 {
      assert f.value[0] in CanonicalFilter(f);
    }
  }

  /** Filters naming the same ids give the same part. */
  lemma SameSetSamePart(f1: Filter, f2: Filter)
    requires FilterSet(f1) == FilterSet(f2)
    ensures Part(f1) == Part(f2)
  {
    CanonicalFilterElements(f1);
    CanonicalFilterElements(f2);
    IncreasingBySet(CanonicalFilter(f1), CanonicalFilter(f2));
    PartOfCanonical(f1);
    PartOfCanonical(f2);
  }

  lemma SameCanonicalSameSet(f1: Filter, f2: Filter)
    requires CanonicalFilter(f1) == CanonicalFilter(f2)
    ensures FilterSet(f1) == FilterSet(f2)
  {
    CanonicalFilterElements(f1);
    CanonicalFilterElements(f2);
  }

  /** Equal keys come from filters naming the same ids. */
  lemma SameKeySameSets(rf1: Filter, uf1: Filter, rf2: Filter, uf2: Filter)
    requires CacheKey(rf1, uf1) == CacheKey(rf2, uf2)
    ensures FilterSet(rf1) == FilterSet(rf2) && FilterSet(uf1) == FilterSet(uf2)
  {
    var k := CacheKey(rf1, uf1);
    KeyRoundTrip(rf1, uf1);
    KeyRoundTrip(rf2, uf2);
    assert Some((CanonicalFilter(rf1), CanonicalFilter(uf1))) == ParseKey(k)
        == Some((CanonicalFilter(rf2), CanonicalFilter(uf2)));
    SameCanonicalSameSet(rf1, rf2);
    SameCanonicalSameSet(uf1, uf2);
  }

  /** Two requests share a cache entry exactly when their filters name the
      same sets of ids: order, repetition, and a missing versus an empty
      filter make no difference. */
  lemma CacheKeyIff(rf1: Filter, uf1: Filter, rf2: Filter, uf2: Filter)
    ensures CacheKey(rf1, uf1) == CacheKey(rf2, uf2)
        <==> FilterSet(rf1) == FilterSet(rf2) && FilterSet(uf1) == FilterSet(uf2)
  {
    if CacheKey(rf1, uf1) == CacheKey(rf2, uf2) {
      SameKeySameSets(rf1, uf1, rf2, uf2);
    }
    if FilterSet(rf1) == FilterSet(rf2) && FilterSet(uf1) == FilterSet(uf2) {
      SameSetSamePart(rf1, rf2);
      SameSetSamePart(uf1, uf2);
    }
  }

  /** A balance key never collides with the context entry, and every balance
      key decodes. */
  lemma CacheKeyIsBalanceKey(rf: Filter, uf: Filter)
    ensures CacheKey(rf, uf) != ContextKey
    ensures ParseKey(CacheKey(rf, uf)).Some?
    ensures CacheKey(rf, uf)[..|KeyHead| + 3] == KeyHead + ":r="
  {
    KeyRoundTrip(rf, uf);
    assert CacheKey(rf, uf)[0] == 'b';
  }

  /** The worked example of the key scheme: duplicates and order vanish, and
      a missing filter is the same as an empty one. */
  lemma CacheKeyExample()
    ensures CacheKey(Some([2, 1, 1]), None) == CacheKey(Some([1, 2]), Some([]))
  {
    var a, b := FilterSet(Some([2, 1, 1])), FilterSet(Some([1, 2]));
    assert a == {1, 2} by {
      assert forall x :: x in a <==> x == 1 || x == 2;
    }
    assert b == {1, 2} by {
      assert forall x :: x in b <==> x == 1 || x == 2;
    }
    assert FilterSet(None) == {} == FilterSet(Some([]));
    CacheKeyIff(Some([2, 1, 1]), None, Some([1, 2]), Some([]));
  }

  /** The key of an unfiltered request, the one entry a write evicts. */
  lemma UnfilteredKey()
    ensures CacheKey(None, None) == "balances:r=all:u=all"
  {
    var k := CacheKey(None, None);
    assert k == "balances" + ":r=" + "all" + ":u=" + "all";
    assert |k| == 20;
    forall i | 0 <= i < 20 ensures k[i] == "balances:r=all:u=all"[i] {}
  }

  // ---------------------------------------------------------------------
  // Cache operations

  /** `TryGetValue<List<BalanceRowDto>>`: a hit only for a balance list; any
      other value under the key reads as a miss. */
  function TryGetBalances(c: Cache, key: string): Option<seq<BalanceRow>> {
    if key in c && c[key].BalanceList? then Some(c[key].rows) else None
  }

  /** `GetBalancesAsync`: the list under the request's key when there is one;
      otherwise the report, which is then stored under that key. Returns the
      list served and the cache afterwards. */
  function GetBalances(c: Cache, st: Store, rf: Filter, uf: Filter, lt: (string, string) -> bool)
    : (r: (seq<BalanceRow>, Cache))
    ensures var key := CacheKey(rf, uf);
      && key in r.1 && r.1[key] == BalanceList(r.0)
      && (forall k | k != key :: (k in r.1 <==> k in c) && (k in c ==> r.1[k] == c[k]))
      && (key in c && c[key].BalanceList? ==> r == (c[key].rows, c))
      && (!(key in c && c[key].BalanceList?) ==> r.0 == Report(st, rf, uf, lt))
  {
    var key := CacheKey(rf, uf);
    match TryGetBalances(c, key)
    case Some(rows) => (rows, c)
    case None =>
      var data := Report(st, rf, uf, lt);
      (data, c[key := BalanceList(data)])
  }

  /** `IMemoryCache.Remove`: drops the entry, if any. */
  function Remove(c: Cache, key: string): (c': Cache)
    ensures c'.Keys == c.Keys - {key}
    ensures forall k | k in c' :: c'[k] == c[k]
  {
    c - {key}
  }

  /** An entry that expires, absolutely or for lack of use, simply
      disappears. */
  function Expire(c: Cache, key: string): Cache {
    Remove(c, key)
  }

  /** `InvalidateBalancesCache`: drops the unfiltered entry, the entries
      filtered by only one of the two given filters, and the entry filtered
      by both. */
  function InvalidateBalancesCache(c: Cache, rf: Filter, uf: Filter): (c': Cache)
    ensures c'.Keys == c.Keys - {CacheKey(None, None), CacheKey(rf, None), CacheKey(None, uf), CacheKey(rf, uf)}
    ensures forall k | k in c' :: c'[k] == c[k]
  {
    var c1 := Remove(c, CacheKey(None, None));
    var c2 := Remove(c1, CacheKey(rf, None));
    var c3 := Remove(c2, CacheKey(None, uf));
    Remove(c3, CacheKey(rf, uf))
  }

  /** Every balance list in the cache is the report its key asks for. */
  ghost predicate Coherent(c: Cache, st: Store, lt: (string, string) -> bool) {
    forall rf: Filter, uf: Filter {:trigger CacheKey(rf, uf)} ::
      CacheKey(rf, uf) in c && c[CacheKey(rf, uf)].BalanceList? ==>
        c[CacheKey(rf, uf)].rows == Report(st, rf, uf, lt)
  }

  // ---------------------------------------------------------------------
  // Properties of the operations

  /** From a coherent cache the read-through serves the current report and
      leaves the cache coherent. */
  lemma GetBalancesCoherent(c: Cache, st: Store, rf: Filter, uf: Filter, lt: (string, string) -> bool)
    requires Coherent(c, st, lt)
    ensures GetBalances(c, st, rf, uf, lt).0 == Report(st, rf, uf, lt)
    ensures Coherent(GetBalances(c, st, rf, uf, lt).1, st, lt)
  {
    var r := GetBalances(c, st, rf, uf, lt);
    forall rf2: Filter, uf2: Filter |
      CacheKey(rf2, uf2) in r.1 && r.1[CacheKey(rf2, uf2)].BalanceList?
      ensures r.1[CacheKey(rf2, uf2)].rows == Report(st, rf2, uf2, lt)
    {
      if CacheKey(rf2, uf2) == CacheKey(rf, uf) {
        CacheKeyIff(rf2, uf2, rf, uf);
        ReportDependsOnFilterSets(st, rf2, uf2, rf, uf, lt);
      }
    }
  }

  /** Asking again, with filters naming the same ids, serves the same list
      from the cache and changes nothing. */
  lemma GetBalancesRepeat(c: Cache, st: Store, rf: Filter, uf: Filter, rf2: Filter, uf2: Filter,
                          lt: (string, string) -> bool)
    requires FilterSet(rf2) == FilterSet(rf) && FilterSet(uf2) == FilterSet(uf)
    ensures var first := GetBalances(c, st, rf, uf, lt);
      GetBalances(first.1, st, rf2, uf2, lt) == first
  {
    CacheKeyIff(rf2, uf2, rf, uf);
  }

  /** Dropping entries never makes a coherent cache incoherent. */
  lemma RemoveCoherent(c: Cache, key: string, st: Store, lt: (string, string) -> bool)
    requires Coherent(c, st, lt)
    ensures Coherent(Remove(c, key), st, lt)
  {
  }

  lemma ExpireCoherent(c: Cache, key: string, st: Store, lt: (string, string) -> bool)
    requires Coherent(c, st, lt)
    ensures Coherent(Expire(c, key), st, lt)
  {
    RemoveCoherent(c, key, st, lt);
  }

  lemma InvalidateCoherent(c: Cache, rf: Filter, uf: Filter, st: Store, lt: (string, string) -> bool)
    requires Coherent(c, st, lt)
    ensures Coherent(InvalidateBalancesCache(c, rf, uf), st, lt)
  {
  }

  /** The context parked under `_context` is not a balance list and leaves
      every balance entry alone. */
  lemma ContextEntryCoherent(c: Cache, st: Store, lt: (string, string) -> bool)
    requires Coherent(c, st, lt)
    ensures Coherent(c[ContextKey := DbContextHandle], st, lt)
    ensures forall rf: Filter, uf: Filter {:trigger CacheKey(rf, uf)} ::
      TryGetBalances(c[ContextKey := DbContextHandle], CacheKey(rf, uf)) == TryGetBalances(c, CacheKey(rf, uf))
  {
    forall rf: Filter, uf: Filter ensures CacheKey(rf, uf) != ContextKey {
      CacheKeyIsBalanceKey(rf, uf);
    }
  }

  /** The request's key is one of the four keys invalidation drops exactly
      when each of its filters is missing or the same as the invalidated one. */
  lemma DroppedKey(rf: Filter, uf: Filter, rf2: Filter, uf2: Filter)
    ensures CacheKey(rf2, uf2) in {CacheKey(None, None), CacheKey(rf, None), CacheKey(None, uf), CacheKey(rf, uf)} <==>
      && (FilterSet(rf2) == {} || FilterSet(rf2) == FilterSet(rf))
      && (FilterSet(uf2) == {} || FilterSet(uf2) == FilterSet(uf))
  {
    var k := CacheKey(rf2, uf2);
    var r2, u2 := FilterSet(rf2), FilterSet(uf2);
    assert FilterSet(None) == {};
    assert (k == CacheKey(None, None)) == (r2 == {} && u2 == {}) by { CacheKeyIff(rf2, uf2, None, None); }
    assert (k == CacheKey(rf, None)) == (r2 == FilterSet(rf) && u2 == {}) by { CacheKeyIff(rf2, uf2, rf, None); }
    assert (k == CacheKey(None, uf)) == (r2 == {} && u2 == FilterSet(uf)) by { CacheKeyIff(rf2, uf2, None, uf); }
    assert (k == CacheKey(rf, uf)) == (r2 == FilterSet(rf) && u2 == FilterSet(uf)) by { CacheKeyIff(rf2, uf2, rf, uf); }
  }

  /** The entry of a request survives invalidation exactly when its resource
      filter is neither missing nor the same as the invalidated one, or its
      unit filter is neither missing nor the same as the invalidated one. */
  lemma InvalidateEvicts(c: Cache, rf: Filter, uf: Filter, rf2: Filter, uf2: Filter)
    ensures CacheKey(rf2, uf2) in InvalidateBalancesCache(c, rf, uf) <==>
      && CacheKey(rf2, uf2) in c
      && !(   (FilterSet(rf2) == {} || FilterSet(rf2) == FilterSet(rf))
           && (FilterSet(uf2) == {} || FilterSet(uf2) == FilterSet(uf)))
  {
    DroppedKey(rf, uf, rf2, uf2);
  }

  /** Invalidation without arguments drops the unfiltered entry only. */
  lemma InvalidateAllArgumentsMissing(c: Cache)
    ensures InvalidateBalancesCache(c, None, None) == Remove(c, "balances:r=all:u=all")
  {
    UnfilteredKey();
  }

  /** Invalidating for resource 5 keeps the entry of resource 5 restricted to
      unit 7. */
  lemma ScopedInvalidationKeepsNarrowerEntry(c: Cache)
    requires CacheKey(Some([5]), Some([7])) in c
    ensures CacheKey(Some([5]), Some([7])) in InvalidateBalancesCache(c, Some([5]), None)
  {
    InvalidateEvicts(c, Some([5]), None, Some([5]), Some([7]));
    assert 7 in FilterSet(Some([7]));
  }

  // ---------------------------------------------------------------------
  // Dropping every balance list

  /** The context entry is not a balance key. */
  lemma ContextKeyIsNotBalanceKey()
    ensures ParseKey(ContextKey).None?
  {
    SplitNoSeparator(ContextKey, ':');
  }

  /** Drops every balance list, whatever filters it was stored under, and
      keeps every other entry. */
  function InvalidateAllBalances(c: Cache): (c': Cache)
    ensures forall rf: Filter, uf: Filter {:trigger CacheKey(rf, uf)} :: CacheKey(rf, uf) !in c'
    ensures forall k | k in c && ParseKey(k).None? :: k in c' && c'[k] == c[k]
    ensures forall k | k in c' :: k in c && c'[k] == c[k]
  {
    forall rf: Filter, uf: Filter ensures ParseKey(CacheKey(rf, uf)).Some? {
      KeyRoundTrip(rf, uf);
    }
    map k | k in c && ParseKey(k).None? :: c[k]
  }

  /** After dropping every balance list the cache is coherent with any
      tables, and the context entry is still there. */
  lemma InvalidateAllCoherent(c: Cache, st: Store, lt: (string, string) -> bool)
    ensures Coherent(InvalidateAllBalances(c), st, lt)
    ensures ContextKey in c ==> ContextKey in InvalidateAllBalances(c)
  {
    ContextKeyIsNotBalanceKey();
  }
}
