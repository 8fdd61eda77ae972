/** `DocumentsController.Search`: the documents of one type that pass the
    optional date, number and line filters, newest first. */
module DocumentSearch {
  import opened Wrappers
  import opened Seqs
  import opened Sorting
  import opened Text
  import opened Decimal
  import opened Ledger

  // ---------------------------------------------------------------------
  // Query strings

  /** The trimmed, non-empty pieces of a list of parts, in order. */
  function TrimmedPieces(parts: seq<string>): (ts: seq<string>)
    ensures forall t | t in ts :: t != [] && exists p | p in parts :: Trim(p) == t
    ensures forall p | p in parts && Trim(p) != [] :: Trim(p) in ts
  {
    if parts == [] then []
    else
      var t := Trim(parts[0]);
      var rest := TrimmedPieces(parts[1..]);
      assert forall p | p in parts[1..] :: p in parts;
      assert forall p | p in parts :: p == parts[0] || p in parts[1..];
      var head := if t == [] then [] else [t];
      assert forall x :: x in head + rest <==> x in head || x in rest;
      head + rest
  }

  /** `(s ?? "").Split(',', RemoveEmptyEntries | TrimEntries)`: the
      comma-separated entries of the text, trimmed, without empty ones. */
  function Tokens(s: Option<string>): (ts: seq<string>)
    ensures forall t | t in ts :: t != [] && ',' !in t && t == Trim(t)
    ensures forall p | p in Split(s.GetOr(""), ',') && Trim(p) != [] :: Trim(p) in ts
    ensures forall t | t in ts :: exists p | p in Split(s.GetOr(""), ',') :: Trim(p) == t
  {
    var parts := Split(s.GetOr(""), ',');
    var ts := TrimmedPieces(parts);
    forall t | t in ts ensures ',' !in t && t == Trim(t) {
      var p :| p in parts && Trim(p) == t;
      TrimSubsequence(p);
      TrimIdempotent(p);
    }
    ts
  }

  /** A trimmed string is a piece of the original. */
  lemma TrimSubsequence(s: string)
    ensures forall c | c in Trim(s) :: c in s
  {
    var n := LeadingWhite(s);
    var r := Trim(s);
    forall c | c in r ensures c in s {
      var k :| 0 <= k < |r| && r[k] == c;
      assert s[n + k] == c;
    }
  }

  /** Trimming twice is trimming once. */
  lemma TrimIdempotent(s: string)
    ensures Trim(Trim(s)) == Trim(s)
  {
    var r := Trim(s);
    var n := LeadingWhite(s);
    if r != [] {
      assert r[0] == s[n];
      assert n < |s|;
      LeadingWhiteOfNonWhite(r);
      TrimOfTrimmed(r);
    } else {
      TrimOfTrimmed(r);
    }
  }

  lemma LeadingWhiteOfNonWhite(s: string)
    requires s != [] && !IsWhiteSpace(s[0])
    ensures LeadingWhite(s) == 0
  {
  }

  lemma TrimOfTrimmed(r: string)
    requires r == [] || (!IsWhiteSpace(r[0]) && !IsWhiteSpace(r[|r| - 1]))
    ensures Trim(r) == r
  {
    if r != [] {
      LeadingWhiteOfNonWhite(r);
    }
  }

  /** The values of entries that read as 32-bit integers, 0 for the others. */
  function ParsedValues(ts: seq<string>): (vs: seq<int>)
    ensures |vs| == |ts|
    ensures forall i :: 0 <= i < |ts| ==> vs[i] == TryParseInt32(ts[i]).GetOr(0)
  {
    if ts == [] then [] else [TryParseInt32(ts[0]).GetOr(0)] + ParsedValues(ts[1..])
  }

  function Positives(vs: seq<int>): (ps: seq<int>)
    ensures forall v :: v in ps <==> v in vs && v > 0
  {
    if vs == [] then []
    else (if vs[0] > 0 then [vs[0]] else []) + Positives(vs[1..])
  }

  /** The positive values among the entries are the positive numbers some
      entry reads as. */
  lemma PositiveValues(ts: seq<string>)
    ensures forall v :: v in ParsedValues(ts) && v > 0 <==> v > 0 && exists t | t in ts :: TryParseInt32(t) == Some(v)
  {
    var vs := ParsedValues(ts);
    forall v ensures v in vs && v > 0 <==> v > 0 && exists t | t in ts :: TryParseInt32(t) == Some(v) {
      if v in vs && v > 0 {
        var i :| 0 <= i < |vs| && vs[i] == v;
        assert TryParseInt32(ts[i]) == Some(v);
      }
      if v > 0 && exists t | t in ts :: TryParseInt32(t) == Some(v) {
        var t :| t in ts && TryParseInt32(t) == Some(v);
        var i :| 0 <= i < |ts| && ts[i] == t;
        assert vs[i] == v;
      }
    }
  }

  /** The positive 32-bit integers some entry reads as, each once, in order
      of first appearance. */
  function PositiveIds(ts: seq<string>): (ids: seq<int>)
    ensures Distinct(ids)
    ensures forall v | v in ids :: 0 < v <= MaxInt32
    ensures forall v :: v in ids <==> v > 0 && exists t | t in ts :: TryParseInt32(t) == Some(v)
  {
    PositiveValues(ts);
    Dedup(Positives(ParsedValues(ts)))
  }

  /** `ParseIntCsv`: the positive 32-bit integers among the comma-separated
      entries, each once, in order of first appearance. */
  function ParseIntCsv(s: Option<string>): (ids: seq<int>)
    ensures Distinct(ids)
    ensures forall v | v in ids :: 0 < v <= MaxInt32
    ensures forall v :: v in ids <==> v > 0 && exists t | t in Tokens(s) :: TryParseInt32(t) == Some(v)
  {
    PositiveIds(Tokens(s))
  }

  /** Keeping the positive values keeps their order of first occurrence. */
  lemma {:induction false} PositivesKeepOrder(vs: seq<int>, x: int, y: int)
    requires x in Positives(vs) && y in Positives(vs)
    requires IndexOf(Positives(vs), x) < IndexOf(Positives(vs), y)
    ensures IndexOf(vs, x) < IndexOf(vs, y)
  {
    var p := Positives(vs);
    var rest := Positives(vs[1..]);
    if vs[0] > 0 {
      assert p == [vs[0]] + rest;
      if x != vs[0] {
        assert y != vs[0];
        assert p[1..] == rest;
        PositivesKeepOrder(vs[1..], x, y);
      }
    } else {
      assert p == rest;
      PositivesKeepOrder(vs[1..], x, y);
    }
  }

  /** The ids come in the order in which their first entries come. */
  lemma PositiveIdsOrder(ts: seq<string>)
    ensures var ids := PositiveIds(ts);
            var vs := ParsedValues(ts);
            && (forall v | v in ids :: v in vs)
            && forall i, j | 0 <= i < j < |ids| :: IndexOf(vs, ids[i]) < IndexOf(vs, ids[j])
  {
    var vs := ParsedValues(ts);
    var p := Positives(vs);
    var ids := Dedup(p);
    assert PositiveIds(ts) == ids;
    DedupKeepsFirstOccurrenceOrder(p);
    forall i, j | 0 <= i < j < |ids| ensures IndexOf(vs, ids[i]) < IndexOf(vs, ids[j]) {
      PositivesKeepOrder(vs, ids[i], ids[j]);
    }
  }

  lemma ParseIntCsvFirstOccurrenceOrder(s: Option<string>)
    ensures var ids := ParseIntCsv(s);
            var vs := ParsedValues(Tokens(s));
            && (forall v | v in ids :: v in vs)
            && forall i, j | 0 <= i < j < |ids| :: IndexOf(vs, ids[i]) < IndexOf(vs, ids[j])
  {
    PositiveIdsOrder(Tokens(s));
  }

  lemma MissingListParsesEmpty()
    ensures ParseIntCsv(None) == [] && ParseIntCsv(Some("")) == []
  {
    assert Split("", ',') == [""];
    assert Trim("") == "";
  }

  // ---------------------------------------------------------------------
  // The query

  /** The query string of `GET api/Documents/search`; dates are day numbers. */
  datatype SearchQuery = SearchQuery(
    typeDocId: int,
    dateFrom: Option<int>,
    dateTo: Option<int>,
    numbers: Option<string>,
    resourceIds: Option<string>,
    unitIds: Option<string>)

  datatype SearchResult = TypeDocRequired | Found(documents: seq<Document>)

  /** Some line of the document passes both id lists; an empty list passes
      every id. */
  predicate HasMatchingLine(items: seq<LineItem>, docId: int, res: seq<int>, uni: seq<int>) {
    exists it | it in items ::
      && it.documentId == docId
      && (|res| == 0 || it.resourceId in res)
      && (|uni| == 0 || it.unitId in uni)
  }

  /** Some entry of `kept` equals `t` under `ignoreCase`. */
  predicate HasEqual(ignoreCase: (string, string) -> bool, kept: seq<string>, t: string) {
    exists k | 0 <= k < |kept| :: ignoreCase(kept[k], t)
  }

  /** `numberSet`: the number tokens added in turn to a `HashSet` with the
      comparer `ignoreCase`; a token is added unless an entry already kept
      equals it. Every entry is a token, every token is an entry or equals
      one, no entry equals a later one, and a token that equals no earlier
      token is an entry: of tokens equal under `ignoreCase` the first wins. */
  function NumberSet(ignoreCase: (string, string) -> bool, ts: seq<string>): (r: seq<string>)
    ensures forall k | 0 <= k < |r| :: r[k] in ts
    ensures forall i | 0 <= i < |ts| :: ts[i] in r || HasEqual(ignoreCase, r, ts[i])
    ensures forall i, j | 0 <= i < j < |r| :: !ignoreCase(r[i], r[j])
    ensures forall i | 0 <= i < |ts| && !HasEqual(ignoreCase, ts[..i], ts[i]) :: ts[i] in r
  {
    if ts == [] then []
    else
      var kept := NumberSet(ignoreCase, ts[..|ts| - 1]);
      StepEntries(ignoreCase, ts, kept);
      StepCovers(ignoreCase, ts, kept);
      StepFirstWins(ignoreCase, ts, kept);
      AddLast(ignoreCase, ts, kept)
  }

  /** The set after adding the last token to the one built from the
      others. */
  function AddLast(ignoreCase: (string, string) -> bool, ts: seq<string>, kept: seq<string>): seq<string>
    requires ts != []
  {
    var t := ts[|ts| - 1];
    if HasEqual(ignoreCase, kept, t) then kept else kept + [t]
  }

  lemma StepEntries(ignoreCase: (string, string) -> bool, ts: seq<string>, kept: seq<string>)
    requires ts != [] && forall k | 0 <= k < |kept| :: kept[k] in ts[..|ts| - 1]
    requires forall i, j | 0 <= i < j < |kept| :: !ignoreCase(kept[i], kept[j])
    ensures var r := AddLast(ignoreCase, ts, kept);
      && (forall k | 0 <= k < |r| :: r[k] in ts)
      && (forall i, j | 0 <= i < j < |r| :: !ignoreCase(r[i], r[j]))
  {
    var init := ts[..|ts| - 1];
    var r := AddLast(ignoreCase, ts, kept);
    assert forall k | 0 <= k < |kept| :: r[k] == kept[k];
    forall k | 0 <= k < |r| ensures r[k] in ts {
      if k < |kept| {
        var m :| 0 <= m < |init| && init[m] == kept[k];
        assert ts[m] == init[m];
      }
    }
  }

  lemma StepCovers(ignoreCase: (string, string) -> bool, ts: seq<string>, kept: seq<string>)
    requires ts != []
    requires var init := ts[..|ts| - 1];
      forall i | 0 <= i < |init| :: init[i] in kept || HasEqual(ignoreCase, kept, init[i])
    ensures var r := AddLast(ignoreCase, ts, kept);
      forall i | 0 <= i < |ts| :: ts[i] in r || HasEqual(ignoreCase, r, ts[i])
  {
    var init := ts[..|ts| - 1];
    var t := ts[|ts| - 1];
    var r := AddLast(ignoreCase, ts, kept);
    assert forall k | 0 <= k < |kept| :: r[k] == kept[k];
    forall i | 0 <= i < |ts| ensures ts[i] in r || HasEqual(ignoreCase, r, ts[i]) {
      if i < |init| {
        assert ts[i] == init[i];
        if !(init[i] in kept) {
          var k :| 0 <= k < |kept| && ignoreCase(kept[k], init[i]);
          assert ignoreCase(r[k], ts[i]);
        }
      } else if HasEqual(ignoreCase, kept, t) {
        var k :| 0 <= k < |kept| && ignoreCase(kept[k], t);
        assert ignoreCase(r[k], ts[i]);
      } else {
        assert r[|kept|] == t;
      }
    }
  }

  lemma StepFirstWins(ignoreCase: (string, string) -> bool, ts: seq<string>, kept: seq<string>)
    requires ts != [] && forall k | 0 <= k < |kept| :: kept[k] in ts[..|ts| - 1]
    requires var init := ts[..|ts| - 1];
      forall i | 0 <= i < |init| && !HasEqual(ignoreCase, init[..i], init[i]) :: init[i] in kept
    ensures var r := AddLast(ignoreCase, ts, kept);
      forall i | 0 <= i < |ts| && !HasEqual(ignoreCase, ts[..i], ts[i]) :: ts[i] in r
  {
    var init := ts[..|ts| - 1];
    var t := ts[|ts| - 1];
    var r := AddLast(ignoreCase, ts, kept);
    assert forall k | 0 <= k < |kept| :: r[k] == kept[k];
    forall i | 0 <= i < |ts| && !HasEqual(ignoreCase, ts[..i], ts[i]) ensures ts[i] in r {
      if i < |init| {
        assert ts[..i] == init[..i] && ts[i] == init[i];
      } else {
        assert ts[..i] == init;
        forall k | 0 <= k < |kept| ensures !ignoreCase(kept[k], t) {
          var m :| 0 <= m < |init| && init[m] == kept[k];
        }
        assert r[|kept|] == t;
      }
    }
  }

  /** Under a database comparison that cannot tell apart numbers equal
      under `ignoreCase`, matching against the set is matching against any
      token: the de-duplication loses nothing. */
  lemma NumberSetMatchesLikeTokens(ignoreCase: (string, string) -> bool, sameNumber: (string, string) -> bool,
                                   ts: seq<string>, x: string)
    requires forall a, b {:trigger ignoreCase(a, b)} :: ignoreCase(a, b) ==> sameNumber(a, x) == sameNumber(b, x)
    ensures (exists k | k in NumberSet(ignoreCase, ts) :: sameNumber(k, x)) <==> (exists t | t in ts :: sameNumber(t, x))
  {
    var r := NumberSet(ignoreCase, ts);
    if k :| k in r && sameNumber(k, x) {
      var m :| 0 <= m < |r| && r[m] == k;
      assert r[m] in ts;
    }
    if t :| t in ts && sameNumber(t, x) {
      var i :| 0 <= i < |ts| && ts[i] == t;
      if !(t in r) {
        var k :| 0 <= k < |r| && ignoreCase(r[k], t);
        assert sameNumber(r[k], x);
      }
    }
  }

  lemma SplitTwoCases()
    ensures Split("ab,AB", ',') == ["ab", "AB"]
  {
    var s := "ab,AB";
    assert s[1..] == "b,AB" && s[1..][1..] == ",AB" && s[1..][1..][1..] == "AB";
    assert "AB"[1..] == "B" && "B"[1..] == [];
    var e: seq<string> := [];
    assert Split("", ',') == [[]];
    assert Split("B", ',') == [['B'] + []] + [[]][1..];
    assert ['B'] + [] == "B" && [[]][1..] == e;
    assert Split("B", ',') == ["B"];
    assert Split("AB", ',') == [['A'] + "B"] + ["B"][1..];
    assert ['A'] + "B" == "AB" && ["B"][1..] == e;
    assert Split(",AB", ',') == [[]] + ["AB"];
    assert Split("b,AB", ',') == [['b'] + []] + [[], "AB"][1..];
    assert ['b'] + [] == "b" && [[], "AB"][1..] == ["AB"];
    assert Split(s, ',') == [['a'] + "b"] + ["b", "AB"][1..];
    assert ['a'] + "b" == "ab" && ["b", "AB"][1..] == ["AB"];
  }

  /** Text that neither starts nor ends with white space is its own trim. */
  lemma TrimUnpadded(s: string)
    requires s != [] && !IsWhiteSpace(s[0]) && !IsWhiteSpace(s[|s| - 1])
    ensures Trim(s) == s
  {
    assert LeadingWhite(s) == 0;
  }

  /** A part that trims to a non-empty piece gives that piece first. */
  lemma PieceCons(p: string, rest: seq<string>)
    requires Trim(p) != []
    ensures TrimmedPieces([p] + rest) == [Trim(p)] + TrimmedPieces(rest)
  {
    var parts := [p] + rest;
    assert parts[0] == p && parts[1..] == rest;
  }

  /** Two parts that trim to non-empty pieces give those two pieces. */
  lemma TwoPieces(a: string, b: string)
    requires Trim(a) != [] && Trim(b) != []
    ensures TrimmedPieces([a, b]) == [Trim(a), Trim(b)]
  {
    var none: seq<string> := [];
    assert [b] + none == [b] && [a] + [b] == [a, b];
    assert [Trim(b)] + none == [Trim(b)] && [Trim(a)] + [Trim(b)] == [Trim(a), Trim(b)];
    PieceCons(b, none);
    PieceCons(a, [b]);
  }

  /** The pieces of `"ab,AB"`. */
  lemma TwoCaseTokens()
    ensures Tokens(Some("ab,AB")) == ["ab", "AB"]
  {
    SplitTwoCases();
    TrimUnpadded("ab");
    TrimUnpadded("AB");
    TwoPieces("ab", "AB");
    assert Some("ab,AB").GetOr("") == "ab,AB";
  }

  /** With a case-sensitive database comparison, `numbers=ab,AB` does not
      list a document numbered `AB`, though one of the tokens is `AB`: the
      case-insensitive set keeps only the first, `ab`. */
  lemma CaseDuplicateDropped(ignoreCase: (string, string) -> bool, d: Document)
    requires ignoreCase("ab", "AB") && d.number == "AB"
    ensures "AB" in Tokens(Some("ab,AB"))
    ensures NumberSet(ignoreCase, Tokens(Some("ab,AB"))) == ["ab"]
    ensures !Matches([], SearchQuery(d.typeDocId, None, None, Some("ab,AB"), None, None),
                     (a: string, b: string) => a == b, ignoreCase, d)
  {
    TwoCaseTokens();
    NumberSetTwoCases(ignoreCase);
  }

  lemma NumberSetTwoCases(ignoreCase: (string, string) -> bool)
    requires ignoreCase("ab", "AB")
    ensures NumberSet(ignoreCase, ["ab", "AB"]) == ["ab"]
  {
    var ts := ["ab", "AB"];
    assert ts[..1] == ["ab"] && ts[..1][..0] == [];
    assert NumberSet(ignoreCase, ts[..1]) == ["ab"];
    assert HasEqual(ignoreCase, ["ab"], "AB") by { assert ["ab"][0] == "ab"; }
  }

  /** Whether a document is listed. `sameNumber` is the database's equality
      of document numbers, which compares them with the entries of
      `numberSet`; `ignoreCase` is `StringComparer.OrdinalIgnoreCase`. */
  predicate Matches(items: seq<LineItem>, q: SearchQuery, sameNumber: (string, string) -> bool, ignoreCase: (string, string) -> bool, d: Document) {
    var numbers := NumberSet(ignoreCase, Tokens(q.numbers));
    var res := ParseIntCsv(q.resourceIds);
    var uni := ParseIntCsv(q.unitIds);
    && d.typeDocId == q.typeDocId
    && (q.dateFrom.None? || d.date >= q.dateFrom.value)
    && (q.dateTo.None? || d.date <= q.dateTo.value)
    && (|numbers| == 0 || exists n | n in numbers :: sameNumber(n, d.number))
    && ((|res| == 0 && |uni| == 0) || HasMatchingLine(items, d.id, res, uni))
  }

  function Where(docs: seq<Document>, items: seq<LineItem>, q: SearchQuery, sameNumber: (string, string) -> bool, ignoreCase: (string, string) -> bool)
    : (r: seq<Document>)
    ensures forall d {:trigger multiset(r)[d]} ::
      multiset(r)[d] == if Matches(items, q, sameNumber, ignoreCase, d) then multiset(docs)[d] else 0
  {
    if docs == [] then []
    else
      var rest := Where(docs[1..], items, q, sameNumber, ignoreCase);
      assert docs == [docs[0]] + docs[1..];
      (if Matches(items, q, sameNumber, ignoreCase, docs[0]) then [docs[0]] else []) + rest
  }

  /** `OrderByDescending(d => d.Date).ThenByDescending(d => d.Id)`. */
  predicate NewerFirst(a: Document, b: Document) {
    a.date > b.date || (a.date == b.date && a.id >= b.id)
  }

  function DocOrder(): (Document, Document) -> bool {
    (a: Document, b: Document) => NewerFirst(a, b)
  }

  lemma DocOrderIsTotalPreorder()
    ensures TotalPreorder(DocOrder())
  {
  }

  /** `Search`: refused without a positive document type; otherwise the
      matching documents, each as often as stored, newest first and, within
      a day, highest id first. */
  function Search(st: Store, q: SearchQuery, sameNumber: (string, string) -> bool, ignoreCase: (string, string) -> bool): (r: SearchResult)
    ensures r.TypeDocRequired? <==> q.typeDocId <= 0
    ensures r.Found? ==> forall d {:trigger multiset(r.documents)[d]} ::
      multiset(r.documents)[d] == if Matches(st.items, q, sameNumber, ignoreCase, d) then multiset(st.documents)[d] else 0
    ensures r.Found? ==> SortedBy(DocOrder(), r.documents)
  {
    if q.typeDocId <= 0 then TypeDocRequired
    else
      DocOrderIsTotalPreorder();
      var found := Where(st.documents, st.items, q, sameNumber, ignoreCase);
      SortSorted(DocOrder(), found);
      Found(Sort(DocOrder(), found))
  }

  /** A document id names one stored document. */
  ghost predicate IdsDetermine(docs: seq<Document>) {
    forall i, j :: 0 <= i < |docs| && 0 <= j < |docs| && docs[i].id == docs[j].id ==> docs[i] == docs[j]
  }

  /** A line filter reads only which lines exist. */
  lemma MatchesBySet(items1: seq<LineItem>, items2: seq<LineItem>, q: SearchQuery,
                     sameNumber: (string, string) -> bool, ignoreCase: (string, string) -> bool, d: Document)
    requires forall it :: it in items1 <==> it in items2
    ensures Matches(items1, q, sameNumber, ignoreCase, d) == Matches(items2, q, sameNumber, ignoreCase, d)
  {
    var res, uni := ParseIntCsv(q.resourceIds), ParseIntCsv(q.unitIds);
    assert HasMatchingLine(items1, d.id, res, uni) == HasMatchingLine(items2, d.id, res, uni);
  }

  lemma WhereBySets(st1: Store, st2: Store, q: SearchQuery, sameNumber: (string, string) -> bool, ignoreCase: (string, string) -> bool)
    requires multiset(st1.documents) == multiset(st2.documents)
    requires forall it :: it in st1.items <==> it in st2.items
    ensures multiset(Where(st1.documents, st1.items, q, sameNumber, ignoreCase))
         == multiset(Where(st2.documents, st2.items, q, sameNumber, ignoreCase))
  {
    var w1 := Where(st1.documents, st1.items, q, sameNumber, ignoreCase);
    var w2 := Where(st2.documents, st2.items, q, sameNumber, ignoreCase);
    forall d ensures multiset(w1)[d] == multiset(w2)[d] {
      MatchesBySet(st1.items, st2.items, q, sameNumber, ignoreCase, d);
    }
  }

  /** Sorted listings of the same stored documents coincide when ids name
      documents uniquely. */
  lemma SortedDocsUnique(docs: seq<Document>, w1: seq<Document>, w2: seq<Document>)
    requires IdsDetermine(docs)
    requires multiset(w1) == multiset(w2) && multiset(w1) <= multiset(docs)
    ensures Sort(DocOrder(), w1) == Sort(DocOrder(), w2)
  {
    var le := DocOrder();
    var s1, s2 := Sort(le, w1), Sort(le, w2);
    DocOrderIsTotalPreorder();
    SortSorted(le, w1);
    SortSorted(le, w2);
    forall i, j | 0 <= i < |s1| && 0 <= j < |s1| && le(s1[i], s1[j]) && le(s1[j], s1[i])
      ensures s1[i] == s1[j]
    {
      assert s1[i] in multiset(w1) && s1[j] in multiset(w1);
      assert s1[i] in multiset(docs) && s1[j] in multiset(docs);
      var a :| 0 <= a < |docs| && docs[a] == s1[i];
      var b :| 0 <= b < |docs| && docs[b] == s1[j];
    }
    SortedUnique(le, s1, s2);
  }

  /** When ids name documents uniquely, the listing depends only on which
      documents and lines are stored, not on the order the tables return
      them in. */
  lemma SearchIgnoresStoredOrder(st1: Store, st2: Store, q: SearchQuery, sameNumber: (string, string) -> bool, ignoreCase: (string, string) -> bool)
    requires multiset(st1.documents) == multiset(st2.documents) && IdsDetermine(st1.documents)
    requires forall it :: it in st1.items <==> it in st2.items
    ensures Search(st1, q, sameNumber, ignoreCase) == Search(st2, q, sameNumber, ignoreCase)
  {
    if q.typeDocId > 0 {
      var w1 := Where(st1.documents, st1.items, q, sameNumber, ignoreCase);
      var w2 := Where(st2.documents, st2.items, q, sameNumber, ignoreCase);
      WhereBySets(st1, st2, q, sameNumber, ignoreCase);
      WhereSubMultiset(st1.documents, st1.items, q, sameNumber, ignoreCase);
      SortedDocsUnique(st1.documents, w1, w2);
    }
  }

  lemma WhereSubMultiset(docs: seq<Document>, items: seq<LineItem>, q: SearchQuery, sameNumber: (string, string) -> bool, ignoreCase: (string, string) -> bool)
    ensures multiset(Where(docs, items, q, sameNumber, ignoreCase)) <= multiset(docs)
  {
    var w := Where(docs, items, q, sameNumber, ignoreCase);
    forall d ensures multiset(w)[d] <= multiset(docs)[d] {
    }
  }
}
