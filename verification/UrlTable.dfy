/** URL records, their list order, and what each store operation does to the table of entries. */
module UrlTable {
  import opened Common
  import opened Orders
  import opened Keyset
  import opened Traversals
  import Int64
  import Text

  const ROLE_ADMIN := "admin"

  /** Instants are nanoseconds since the Unix epoch. */
  datatype UrlData = UrlData(
    id: string, shortCode: string, originalURL: string, expiresIn: string,
    expiresAt: int, createdAt: int, createdBy: string, visits: int)

  datatype UrlCursor = UrlCursor(createdAtUnixNano: int, shortCode: string)

  datatype Entry = Entry(data: UrlData, expiresAt: int)

  type Table = map<string, Entry>

  // ----- Order (created_at DESC, short_code ASC) -----

  function UnixNano(t: int): int {
    Int64.Wrap(t)
  }

  function KeyOf(u: UrlData): UrlCursor {
    UrlCursor(UnixNano(u.createdAt), u.shortCode)
  }

  predicate NewerThan(u: UrlData, other: UrlData) {
    var n1, n2 := UnixNano(u.createdAt), UnixNano(other.createdAt);
    if n1 != n2 then n1 > n2 else Text.Less(u.shortCode, other.shortCode)
  }

  predicate AfterKeyset(u: UrlData, cursor: UrlCursor) {
    var n := UnixNano(u.createdAt);
    if n != cursor.createdAtUnixNano then n < cursor.createdAtUnixNano else Text.Less(cursor.shortCode, u.shortCode)
  }

  /** The list order on keys; both comparisons above are instances of it. */
  predicate Before(a: UrlCursor, b: UrlCursor) {
    a.createdAtUnixNano > b.createdAtUnixNano
    || (a.createdAtUnixNano == b.createdAtUnixNano && Text.Less(a.shortCode, b.shortCode))
  }

  lemma {:induction false} BeforeStrictTotal()
    ensures StrictTotal(Before)
  {
    Text.LessStrictTotal();
    forall a, b, c | Before(a, b) && Before(b, c)
      ensures Before(a, c)
    {
      if a.createdAtUnixNano == c.createdAtUnixNano {
        Text.LessTransitive(a.shortCode, b.shortCode, c.shortCode);
      }
    }
    forall a: UrlCursor, b: UrlCursor | a != b
      ensures Before(a, b) || Before(b, a)
    {
      if a.createdAtUnixNano == b.createdAtUnixNano {
        Text.LessTotal(a.shortCode, b.shortCode);
      }
    }
  }

  /** The cursor comparison and the sort comparison never disagree. */
  lemma {:induction false} CursorMatchesOrder(u: UrlData, v: UrlData)
    ensures AfterKeyset(u, KeyOf(v)) <==> NewerThan(v, u)
    ensures NewerThan(u, v) <==> Before(KeyOf(u), KeyOf(v))
    ensures forall cursor :: AfterKeyset(u, cursor) <==> After(Before, Some(cursor), KeyOf(u))
  {
  }

  // ----- Visibility -----

  predicate Active(e: Entry, now: int) {
    !(now > e.expiresAt)
  }

  predicate Sees(u: UrlData, userID: string, role: string) {
    role == ROLE_ADMIN || u.createdBy == userID
  }

  function Visible(t: Table, now: int, userID: string, role: string): (m: map<string, UrlData>) {
    map c | c in t && Active(t[c], now) && Sees(t[c].data, userID, role) :: t[c].data
  }

  /** Every record is filed under its own short code; the service files them so. */
  ghost predicate Keyed(t: Table) {
    forall c :: c in t ==> t[c].data.shortCode == c
  }

  ghost predicate KeyedRows(m: map<string, UrlData>) {
    forall c :: c in m ==> m[c].shortCode == c
  }

  /** Who sees a record, and when: its owner or an administrator, up to and including the instant of its expiry. */
  lemma {:induction false} VisibleExactly(t: Table, now: int, userID: string, role: string, c: string)
    ensures c in Visible(t, now, userID, role) <==>
      c in t && now <= t[c].expiresAt && (role == "admin" || t[c].data.createdBy == userID)
    ensures c in Visible(t, now, userID, role) ==> Visible(t, now, userID, role)[c] == t[c].data
  {
  }

  // ----- Pages -----

  datatype UrlList = UrlList(items: seq<UrlData>, total: nat, hasMore: bool)

  function KeySet(m: map<string, UrlData>): set<UrlCursor> {
    set c | c in m :: KeyOf(m[c])
  }

  /** The answer to a list request over the visible records m, said declaratively. */
  ghost predicate ListsPage(m: map<string, UrlData>, cursor: Option<UrlCursor>, limit: nat, r: UrlList) {
    && IsPage(Before, KeySet(m), cursor, limit, Page(Keys(KeyOf, r.items), r.hasMore))
    && (forall u :: u in r.items ==> u.shortCode in m && m[u.shortCode] == u)
    && r.total == |m|
  }

  lemma {:induction false} EnumerationDistinct(rows: seq<UrlData>, order: seq<string>, m: map<string, UrlData>)
    requires KeyedRows(m) && Enumerates(rows, order, m)
    ensures Distinct(KeyOf, rows)
    ensures forall u :: u in rows <==> u.shortCode in m && m[u.shortCode] == u
  {
    forall i, j | 0 <= i < j < |rows|
      ensures KeyOf(rows[i]) != KeyOf(rows[j])
    {
      assert order[i] in order && order[j] in order;
    }
    forall u
      ensures u in rows <==> u.shortCode in m && m[u.shortCode] == u
    {
      if u.shortCode in m && m[u.shortCode] == u {
        var i :| 0 <= i < |order| && order[i] == u.shortCode;
        assert rows[i] == u;
      }
      if u in rows {
        var i :| 0 <= i < |rows| && rows[i] == u;
        assert order[i] in order;
      }
    }
  }

  /** What the in-memory store answers from one traversal of its visible records: sort, search, slice. */
  function SliceList(rows: seq<UrlData>, cursor: Option<UrlCursor>, limit: nat): UrlList {
    var p := SlicePage(KeyOf, Before, SortBy(KeyOf, Before, rows), cursor, limit);
    UrlList(p.items, |rows|, p.more)
  }

  lemma {:induction false} SliceItems(sorted: seq<UrlData>, cursor: Option<UrlCursor>, limit: nat)
    ensures forall u :: u in SlicePage(KeyOf, Before, sorted, cursor, limit).items ==> u in sorted
  {
  }

  lemma {:induction false} SortedKeySet(sorted: seq<UrlData>, m: map<string, UrlData>)
    requires KeyedRows(m)
    requires forall u :: u in sorted <==> u.shortCode in m && m[u.shortCode] == u
    ensures forall k :: k in KeySet(m) <==> k in Keys(KeyOf, sorted)
  {
    var keys := Keys(KeyOf, sorted);
    forall k
      ensures k in KeySet(m) <==> k in keys
    {
      if k in KeySet(m) {
        var c :| c in m && KeyOf(m[c]) == k;
        assert m[c] in sorted;
        var i :| 0 <= i < |sorted| && sorted[i] == m[c];
        assert keys[i] == k;
      }
      if k in keys {
        var i :| 0 <= i < |keys| && keys[i] == k;
        assert sorted[i] in sorted;
      }
    }
  }

  lemma {:induction false} SortedSliceIsPage(
    rows: seq<UrlData>, order: seq<string>, m: map<string, UrlData>, cursor: Option<UrlCursor>, limit: nat)
    requires KeyedRows(m) && Enumerates(rows, order, m)
    ensures var p := SliceList(rows, cursor, limit);
            IsPage(Before, KeySet(m), cursor, limit, Page(Keys(KeyOf, p.items), p.hasMore))
  {
    var sorted := SortBy(KeyOf, Before, rows);
    assert forall k :: k in KeySet(m) <==> k in Keys(KeyOf, sorted) by {
      SameElements(sorted, rows);
      EnumerationDistinct(rows, order, m);
      SortedKeySet(sorted, m);
    }
    BeforeStrictTotal();
    assert Sorted(KeyOf, Before, sorted) by {
      EnumerationDistinct(rows, order, m);
      SortBySorted(KeyOf, Before, rows);
    }
    SliceIsPage(KeyOf, Before, sorted, KeySet(m), cursor, limit);
  }

  /** Sorting and slicing any traversal of the visible records answers the request. */
  lemma {:induction false} SliceListsPage(
    rows: seq<UrlData>, order: seq<string>, m: map<string, UrlData>, cursor: Option<UrlCursor>, limit: nat)
    requires KeyedRows(m) && Enumerates(rows, order, m)
    ensures ListsPage(m, cursor, limit, SliceList(rows, cursor, limit))
  {
    var sorted := SortBy(KeyOf, Before, rows);
    assert forall u :: u in sorted <==> u.shortCode in m && m[u.shortCode] == u by {
      SameElements(sorted, rows);
      EnumerationDistinct(rows, order, m);
    }
    SliceItems(sorted, cursor, limit);
    SortedSliceIsPage(rows, order, m, cursor, limit);
    EnumerationLength(rows, order, m);
  }

  /** One request has one answer. */
  lemma {:induction false} ListsPageUnique(
    m: map<string, UrlData>, cursor: Option<UrlCursor>, limit: nat, p: UrlList, q: UrlList)
    requires ListsPage(m, cursor, limit, p) && ListsPage(m, cursor, limit, q)
    ensures p == q
  {
    BeforeStrictTotal();
    var ps, qs := Keys(KeyOf, p.items), Keys(KeyOf, q.items);
    PageUnique(Before, KeySet(m), cursor, limit, Page(ps, p.hasMore), Page(qs, q.hasMore));
    forall i | 0 <= i < |p.items|
      ensures p.items[i] == q.items[i]
    {
      assert ps[i] == qs[i];
      assert p.items[i] in p.items && q.items[i] in q.items;
    }
  }

  /** Records by creation time, the newest first, and by code among equals; instants int64 can hold. */
  predicate NewestFirst(urls: seq<UrlData>) {
    forall i, j :: 0 <= i < j < |urls| && Int64.Fits(urls[i].createdAt) && Int64.Fits(urls[j].createdAt) ==>
      || urls[i].createdAt > urls[j].createdAt
      || (urls[i].createdAt == urls[j].createdAt && Text.Less(urls[i].shortCode, urls[j].shortCode))
  }

  lemma {:induction false} SortedIsNewestFirst(urls: seq<UrlData>)
    requires Sorted(KeyOf, Before, urls)
    ensures NewestFirst(urls)
  {
    hide Text.Less;
    forall i, j | 0 <= i < j < |urls| && Int64.Fits(urls[i].createdAt) && Int64.Fits(urls[j].createdAt)
      ensures urls[i].createdAt > urls[j].createdAt
              || (urls[i].createdAt == urls[j].createdAt && Text.Less(urls[i].shortCode, urls[j].shortCode))
    {
      assert Before(KeyOf(urls[i]), KeyOf(urls[j]));
    }
  }

  /** A page is listed newest first. */
  lemma {:induction false} PageIsNewestFirst(m: map<string, UrlData>, cursor: Option<UrlCursor>, limit: nat, r: UrlList)
    requires ListsPage(m, cursor, limit, r)
    ensures NewestFirst(r.items)
  {
    var keys := Keys(KeyOf, r.items);
    assert Ascending(Before, keys);
    assert Sorted(KeyOf, Before, r.items);
    SortedIsNewestFirst(r.items);
  }

  /** ... and everything on it was created before the cursor, or at the same time under a greater code. */
  lemma {:induction false} PageIsAfterCursor(
    m: map<string, UrlData>, cursor: UrlCursor, limit: nat, r: UrlList, u: UrlData)
    requires ListsPage(m, Some(cursor), limit, r) && u in r.items && Int64.Fits(u.createdAt)
    ensures u.createdAt < cursor.createdAtUnixNano
            || (u.createdAt == cursor.createdAtUnixNano && Text.Less(cursor.shortCode, u.shortCode))
  {
    hide Text.Less;
    var i :| 0 <= i < |r.items| && r.items[i] == u;
    var keys := Keys(KeyOf, r.items);
    assert keys[i] in keys && After(Before, Some(cursor), keys[i]);
  }

  /** What PostgreSQL answers: LIMIT limit+1 over the active rows in scope, stored in any order. */
  function SqlList(rows: seq<UrlData>, cursor: Option<UrlCursor>, limit: nat): UrlList {
    var p := LimitPlusOnePage(KeyOf, Before, rows, cursor, limit);
    UrlList(p.items, |rows|, p.more)
  }

  /** Over the same active records the two stores answer alike, whatever order either holds them in. */
  lemma {:induction false} StoresAgree(
    rows: seq<UrlData>, order: seq<string>, stored: seq<UrlData>, storedOrder: seq<string>,
    m: map<string, UrlData>, cursor: Option<UrlCursor>, limit: nat)
    requires KeyedRows(m) && Enumerates(rows, order, m) && Enumerates(stored, storedOrder, m)
    ensures SliceList(rows, cursor, limit) == SqlList(stored, cursor, limit)
    ensures ListsPage(m, cursor, limit, SqlList(stored, cursor, limit))
  {
    BeforeStrictTotal();
    EnumerationDistinct(rows, order, m);
    EnumerationDistinct(stored, storedOrder, m);
    EnumerationLength(rows, order, m);
    EnumerationLength(stored, storedOrder, m);
    SliceRefinesLimitPlusOne(KeyOf, Before, rows, stored, cursor, limit);
    SliceListsPage(rows, order, m, cursor, limit);
  }

  /** The page as a function of the visible records. */
  ghost function PageAt(m: map<string, UrlData>, cursor: Option<UrlCursor>, limit: nat): (r: UrlList)
    ensures KeyedRows(m) ==> ListsPage(m, cursor, limit, r)
  {
    if KeyedRows(m) then
      SliceListsPage(TraversalRows(m), Traversal(m), m, cursor, limit);
      var r :| ListsPage(m, cursor, limit, r); r
    else SliceList(TraversalRows(m), cursor, limit)
  }

  // ----- Totals -----

  ghost function SumVisits(m: map<string, UrlData>): int
    decreases |m|
  {
    if m == map[] then 0
    else
      var c :| c in m;
      assert |m.Keys| == |m| && (m - {c}).Keys + {c} == m.Keys && |(m - {c}).Keys| == |m - {c}|;
      m[c].visits + SumVisits(m - {c})
  }

  lemma {:induction false} SumVisitsRemove(m: map<string, UrlData>, c: string)
    requires c in m
    ensures SumVisits(m) == m[c].visits + SumVisits(m - {c})
    decreases |m|
  {
    var d :| d in m && SumVisits(m) == m[d].visits + SumVisits(m - {d});
    if c != d {
      assert (m - {d}).Keys + {d} == m.Keys && |m.Keys| == |m| && |(m - {d}).Keys| == |m - {d}|;
      SumVisitsRemove(m - {d}, c);
      SumVisitsRemove(m - {c}, d);
      assert m - {c} - {d} == m - {d} - {c};
    }
  }

  function SumRows(rows: seq<UrlData>): int {
    if rows == [] then 0 else SumRows(rows[..|rows| - 1]) + rows[|rows| - 1].visits
  }

  lemma {:induction false} EnumerateOneLess(rows: seq<UrlData>, order: seq<string>, m: map<string, UrlData>)
    requires Enumerates(rows, order, m) && rows != []
    ensures var n := |rows| - 1; Enumerates(rows[..n], order[..n], m - {order[n]})
  {
    var n := |rows| - 1;
    assert order == order[..n] + [order[n]];
  }

  /** Any traversal adds up to the same total. */
  lemma {:induction false} EnumerationTotal(rows: seq<UrlData>, order: seq<string>, m: map<string, UrlData>)
    requires Enumerates(rows, order, m)
    ensures SumRows(rows) == SumVisits(m)
  {
    if rows == [] {
      assert order == [] && m == map[];
    } else {
      var n := |rows| - 1;
      Has(order, n);
      EnumerateOneLess(rows, order, m);
      EnumerationTotal(rows[..n], order[..n], m - {order[n]});
      SumVisitsRemove(m, order[n]);
    }
  }

  function OwnedBy(m: map<string, UrlData>, owners: seq<string>): map<string, UrlData> {
    map c | c in m && m[c].createdBy in owners :: m[c]
  }

  /** Adds up the URL counts and the visits of each listed owner. */
  ghost function SumOverOwners(m: map<string, UrlData>, owners: seq<string>): (r: (nat, int)) {
    if owners == [] then (0, 0)
    else
      var own, rest := OwnedBy(m, [owners[0]]), SumOverOwners(m, owners[1..]);
      (|own| + rest.0, SumVisits(own) + rest.1)
  }

  lemma {:induction false} WithoutOne(
    m: map<string, UrlData>, a: map<string, UrlData>, b: map<string, UrlData>, c: string)
    requires a.Keys !! b.Keys && m == a + b && c in a
    ensures m - {c} == (a - {c}) + b && m[c] == a[c]
    ensures (a - {c}).Keys == a.Keys - {c}
  {
  }

  lemma {:induction false} SumVisitsSplit(m: map<string, UrlData>, a: map<string, UrlData>, b: map<string, UrlData>)
    requires a.Keys !! b.Keys && m == a + b
    ensures SumVisits(m) == SumVisits(a) + SumVisits(b)
    decreases |a.Keys|
  {
    if a == map[] {
      assert m == b;
    } else {
      var c :| c in a;
      WithoutOne(m, a, b, c);
      SumVisitsSplit(m - {c}, a - {c}, b);
      hide SumVisits;
      SumVisitsRemove(m, c);
      SumVisitsRemove(a, c);
    }
  }

  lemma {:induction false} SizeSplit(m: map<string, UrlData>, a: map<string, UrlData>, b: map<string, UrlData>)
    requires a.Keys !! b.Keys && m == a + b
    ensures |m| == |a| + |b|
  {
    assert m.Keys == a.Keys + b.Keys;
    assert |m.Keys| == |a.Keys| + |b.Keys|;
  }

  lemma {:induction false} OwnersApart(m: map<string, UrlData>, owners: seq<string>)
    requires owners != [] && forall i, j :: 0 <= i < j < |owners| ==> owners[i] != owners[j]
    ensures var one, rest := OwnedBy(m, [owners[0]]), OwnedBy(m, owners[1..]);
            one.Keys !! rest.Keys && OwnedBy(m, owners) == one + rest
  {
    assert owners == [owners[0]] + owners[1..];
  }

  lemma {:induction false} OwnerSplit(m: map<string, UrlData>, owners: seq<string>)
    requires owners != [] && forall i, j :: 0 <= i < j < |owners| ==> owners[i] != owners[j]
    ensures var whole, one, rest := OwnedBy(m, owners), OwnedBy(m, [owners[0]]), OwnedBy(m, owners[1..]);
            |whole| == |one| + |rest| && SumVisits(whole) == SumVisits(one) + SumVisits(rest)
  {
    hide SumVisits, OwnedBy;
    var whole, one, rest := OwnedBy(m, owners), OwnedBy(m, [owners[0]]), OwnedBy(m, owners[1..]);
    OwnersApart(m, owners);
    SizeSplit(whole, one, rest);
    SumVisitsSplit(whole, one, rest);
  }

  lemma {:induction false} OwnersPartition(m: map<string, UrlData>, owners: seq<string>)
    requires forall i, j :: 0 <= i < j < |owners| ==> owners[i] != owners[j]
    ensures SumOverOwners(m, owners).0 == |OwnedBy(m, owners)|
    ensures SumOverOwners(m, owners).1 == SumVisits(OwnedBy(m, owners))
  {
    if owners == [] {
      assert OwnedBy(m, owners) == map[];
    } else {
      OwnersPartition(m, owners[1..]);
      OwnerSplit(m, owners);
    }
  }

  /** Adds up the visit totals as StatsFor reports them to each owner, in int64. */
  ghost function SumReported(m: map<string, UrlData>, owners: seq<string>): int {
    if owners == [] then 0 else Int64.Wrap(SumVisits(OwnedBy(m, [owners[0]]))) + SumReported(m, owners[1..])
  }

  lemma {:induction false} ReportedAddUp(m: map<string, UrlData>, owners: seq<string>)
    ensures Int64.Wrap(SumReported(m, owners)) == Int64.Wrap(SumOverOwners(m, owners).1)
  {
    hide Int64.Wrap, OwnedBy, SumVisits;
    if owners != [] {
      var own := SumVisits(OwnedBy(m, [owners[0]]));
      var rest, reported := SumOverOwners(m, owners[1..]).1, SumReported(m, owners[1..]);
      ReportedAddUp(m, owners[1..]);
      Int64.WrapAdd(own, reported);
      Int64.WrapAdd(reported, own);
      Int64.WrapAdd(rest, own);
    }
  }

  /** The administrator's totals are the sums of every owner's own totals, exactly and as reported in int64. */
  lemma {:induction false} AdminTotalsAreOwnerSums(t: Table, now: int, adminID: string, owners: seq<string>)
    requires forall i, j :: 0 <= i < j < |owners| ==> owners[i] != owners[j]
    requires forall c :: c in t && Active(t[c], now) ==> t[c].data.createdBy in owners
    ensures var all := Visible(t, now, adminID, ROLE_ADMIN);
            && SumOverOwners(all, owners).0 == |all|
            && SumOverOwners(all, owners).1 == SumVisits(all)
            && Int64.Wrap(SumReported(all, owners)) == Int64.Wrap(SumVisits(all))
            && (forall o, role :: role != ROLE_ADMIN ==> OwnedBy(all, [o]) == Visible(t, now, o, role))
  {
    var all := Visible(t, now, adminID, ROLE_ADMIN);
    hide SumVisits, SumOverOwners, SumReported, Int64.Wrap;
    OwnersPartition(all, owners);
    ReportedAddUp(all, owners);
    assert OwnedBy(all, owners) == all;
  }
}
