/** sort.Search from Go's standard library. */
module GoSort {
  import opened Common
  import opened Orders
  import opened Keyset

  method Search(n: nat, f: int --> bool) returns (i: nat)
    requires forall k :: 0 <= k < n ==> f.requires(k)
    ensures i <= n
    ensures i < n ==> f(i)
    ensures i > 0 ==> !f(i - 1)
  {
    i := 0;
    var j := n;
    while i < j
      invariant i <= j <= n
      invariant i > 0 ==> !f(i - 1)
      invariant j < n ==> f(j)
    {
      var h := (i + j) / 2;
      if !f(h) {
        i := h + 1;
      } else {
        j := h;
      }
    }
  }

  /** On sorted rows, any boundary of "is after the cursor" is the first row after it. */
  lemma {:induction false} BoundaryIsFirstAfter<T(!new), K(!new)>(
    key: T -> K, lt: (K, K) -> bool, sorted: seq<T>, cursor: Option<K>, i: nat)
    requires StrictTotal(lt) && Sorted(key, lt, sorted) && i <= |sorted|
    requires i < |sorted| ==> After(lt, cursor, key(sorted[i]))
    requires i > 0 ==> !After(lt, cursor, key(sorted[i - 1]))
    ensures i == FirstAfter(key, lt, cursor, sorted)
  {
    if i < |sorted| { AfterIsSuffix(key, lt, sorted, cursor, i); }
    if i > 0 { AfterIsSuffix(key, lt, sorted, cursor, i - 1); }
  }
}

/** The in-memory URL store. */
module Storage {
  import opened Common
  import opened Orders
  import opened Traversals
  import opened UrlTable
  import opened GoSort
  import opened UrlRuns
  import Int64
  import Keyset

  class StorageEntry {
    var data: UrlData
    var expiresAt: int

    constructor (data: UrlData, expiresAt: int)
      ensures this.data == data && this.expiresAt == expiresAt
    {
      this.data, this.expiresAt := data, expiresAt;
    }
  }

  predicate AddUp(rows: seq<UrlData>, urls: int, visits: int) {
    urls == |rows| && visits == Int64.Wrap(SumRows(rows))
  }

  lemma {:induction false} TotalsOneMore(rows: seq<UrlData>, u: UrlData, urls: int, visits: int)
    requires AddUp(rows, urls, visits)
    ensures AddUp(rows + [u], urls + 1, Int64.Wrap(visits + u.visits))
  {
    assert (rows + [u])[..|rows|] == rows;
    Int64.WrapAdd(SumRows(rows), u.visits);
  }

  lemma {:induction false} NothingYet()
    ensures Enumerates<UrlData>([], [], map[]) && AddUp([], 0, 0)
  {
  }

  lemma {:induction false} TraversalTotals(
    rows: seq<UrlData>, order: seq<string>, m: map<string, UrlData>, urls: nat, visits: int)
    requires Enumerates(rows, order, m) && AddUp(rows, urls, visits)
    ensures TotalsOf(m) == Totals(urls, visits)
  {
    EnumerationLength(rows, order, m);
    EnumerationTotal(rows, order, m);
  }

  /** sort.SliceStable by NewerThan. */
  function SortByKey(rows: seq<UrlData>): (r: seq<UrlData>)
    ensures |r| == |rows|
  {
    var r := SortBy(KeyOf, Before, rows);
    assert |multiset(r)| == |multiset(rows)|;
    r
  }

  /** A zero cursor asks for the first page. */
  function Position(cursor: UrlCursor): Option<UrlCursor> {
    if cursor.createdAtUnixNano != 0 || cursor.shortCode != "" then Some(cursor) else None
  }

  /** start is where the rows change from not being after the cursor to being after it. */
  predicate IsBoundary(sorted: seq<UrlData>, cursor: UrlCursor, start: nat) {
    && start <= |sorted|
    && (start < |sorted| ==> AfterKeyset(sorted[start], cursor))
    && (start > 0 ==> !AfterKeyset(sorted[start - 1], cursor))
  }

  predicate IsStart(sorted: seq<UrlData>, cursor: UrlCursor, start: nat) {
    if Position(cursor).Some? then IsBoundary(sorted, cursor, start) else start == 0
  }

  /** limit rows from start, and whether more follow. */
  function Window(sorted: seq<UrlData>, start: nat, limit: nat): UrlList {
    var total := |sorted|;
    var end := if start + limit > total then total else start + limit;
    if start >= total then UrlList([], total, false) else UrlList(sorted[start..end], total, end < total)
  }

  /** r is the slice that sort, search and slice cut from some traversal of the records. */
  ghost predicate ListedFrom(m: map<string, UrlData>, cursor: UrlCursor, limit: nat, r: UrlList) {
    exists rows, order, start: nat ::
      Enumerates(rows, order, m) && IsStart(SortByKey(rows), cursor, start) && r == Window(SortByKey(rows), start, limit)
  }

  lemma {:induction false} SliceIsListed(
    rows: seq<UrlData>, order: seq<string>, m: map<string, UrlData>, cursor: UrlCursor, limit: nat, start: nat)
    requires Enumerates(rows, order, m) && IsStart(SortByKey(rows), cursor, start)
    ensures ListedFrom(m, cursor, limit, Window(SortByKey(rows), start, limit))
  {
  }

  lemma {:induction false} StartIsFirstAfter(
    rows: seq<UrlData>, order: seq<string>, m: map<string, UrlData>, cursor: UrlCursor, start: nat)
    requires KeyedRows(m) && Enumerates(rows, order, m)
    requires IsStart(SortByKey(rows), cursor, start)
    ensures start == Keyset.FirstAfter(KeyOf, Before, Position(cursor), SortByKey(rows))
  {
    var sorted := SortByKey(rows);
    if start < |sorted| { CursorMatchesOrder(sorted[start], sorted[start]); }
    if start > 0 { CursorMatchesOrder(sorted[start - 1], sorted[start - 1]); }
    assert Sorted(KeyOf, Before, sorted) by {
      BeforeStrictTotal();
      EnumerationDistinct(rows, order, m);
      SortBySorted(KeyOf, Before, rows);
    }
    BeforeStrictTotal();
    BoundaryIsFirstAfter(KeyOf, Before, sorted, Position(cursor), start);
  }

  /** Slicing the sorted traversal from the searched start answers the request. */
  lemma {:induction false} SearchedSliceLists(
    rows: seq<UrlData>, order: seq<string>, m: map<string, UrlData>, cursor: UrlCursor, limit: nat, start: nat)
    requires KeyedRows(m) && Enumerates(rows, order, m)
    requires IsStart(SortByKey(rows), cursor, start)
    ensures PageAt(m, Position(cursor), limit) == Window(SortByKey(rows), start, limit)
  {
    hide PageAt, ListsPage, SortBy, Keyset.FirstAfter, Enumerates, IsBoundary, IsStart, KeyedRows;
    StartIsFirstAfter(rows, order, m, cursor, start);
    SliceListsPage(rows, order, m, Position(cursor), limit);
    ListsPageUnique(m, Position(cursor), limit, SliceList(rows, Position(cursor), limit), PageAt(m, Position(cursor), limit));
  }

  class Store {
    var data: map<string, StorageEntry>

    /** No two codes share an entry. */
    ghost predicate Valid()
      reads this
    {
      forall c, d :: c in data && d in data && c != d ==> data[c] != data[d]
    }

    ghost function Contents(): (t: Table)
      reads this, data.Values
    {
      map c | c in data :: Entry(data[c].data, data[c].expiresAt)
    }

    constructor ()
      ensures Valid() && Contents() == map[]
    {
      data := map[];
    }

    method SetIfAbsent(now: int, shortCode: string, urlData: UrlData) returns (r: Result<(), StoreError>)
      requires Valid()
      modifies this
      ensures Valid()
      ensures (Contents(), r) == old(UrlRuns.SetIfAbsent(Contents(), now, shortCode, urlData))
      ensures forall e :: e in data.Values ==> e in old(data.Values) || fresh(e)
      ensures r.Ok? <==> shortCode !in old(data) || now > old(data[shortCode].expiresAt)
    {
      if shortCode in data && !(now > data[shortCode].expiresAt) {
        return Err(KeyExists);
      }
      var entry := new StorageEntry(urlData, urlData.expiresAt);
      data := data[shortCode := entry];
      assert Contents() == old(Contents())[shortCode := Entry(urlData, urlData.expiresAt)];
      return Ok(());
    }

    method Get(now: int, shortCode: string) returns (r: Result<UrlData, StoreError>)
      ensures r == UrlRuns.Get(Contents(), now, shortCode)
    {
      if shortCode !in data {
        return Err(KeyNotFound);
      }
      if now > data[shortCode].expiresAt {
        return Err(KeyNotFound);
      }
      return Ok(data[shortCode].data);
    }

    /** Does not look at the expiry. */
    method Delete(shortCode: string) returns (r: Result<(), StoreError>)
      requires Valid()
      modifies this
      ensures Valid() && data.Values <= old(data.Values)
      ensures (Contents(), r) == old(UrlRuns.Delete(Contents(), shortCode))
      ensures shortCode !in data && (r.Ok? <==> shortCode in old(data))
    {
      if shortCode !in data {
        return Err(KeyNotFound);
      }
      data := data - {shortCode};
      assert Contents() == old(Contents()) - {shortCode};
      return Ok(());
    }

    method GetAndIncrement(now: int, shortCode: string) returns (r: Result<UrlData, StoreError>)
      requires Valid()
      modifies data.Values
      ensures Valid() && data == old(data)
      ensures (Contents(), r) == old(UrlRuns.GetAndIncrement(Contents(), now, shortCode))
    {
      if shortCode !in data || now > data[shortCode].expiresAt {
        return Err(KeyNotFound);
      }
      var entry := data[shortCode];
      assert entry in data.Values;
      entry.data := entry.data.(visits := Int64.Wrap(entry.data.visits + 1));
      assert Contents() == old(Contents())[shortCode := Visited(old(Contents())[shortCode])];
      return Ok(entry.data);
    }

    /** One tick of the background sweep. */
    method CleanupExpired(now: int)
      requires Valid()
      modifies this
      ensures Valid() && data.Values <= old(data.Values)
      ensures Contents() == old(Live(Contents(), now))
    {
      var todo := data.Keys;
      while todo != {}
        invariant todo <= old(data.Keys)
        invariant forall c :: c in data <==> c in old(data) && (c in todo || !(now > old(data[c].expiresAt)))
        invariant forall c :: c in data ==> data[c] == old(data)[c]
        decreases |todo|
      {
        var key :| key in todo;
        if now > data[key].expiresAt {
          data := data - {key};
        }
        todo := todo - {key};
      }
    }

    /** The caller's active records, in the order this traversal of the map met them. */
    method GetAllFor(now: int, userID: string, role: string) returns (results: seq<UrlData>, ghost order: seq<string>)
      ensures Enumerates(results, order, Visible(Contents(), now, userID, role))
    {
      hide Seen, Enumerates;
      results, order := [], [];
      var todo := data.Keys;
      ghost var visible := Visible(Contents(), now, userID, role);
      Passed(visible, todo);
      NothingYet();
      while todo != {}
        invariant todo <= data.Keys
        invariant Enumerates(results, order, Seen(visible, todo))
        decreases |todo|
      {
        var key :| key in todo;
        var entry := data[key];
        PassOne(visible, todo, key);
        if !(now > entry.expiresAt) && !(role != ROLE_ADMIN && entry.data.createdBy != userID) {
          EnumerateOneMore(results, order, Seen(visible, todo), key, entry.data);
          results, order := results + [entry.data], order + [key];
        }
        todo := todo - {key};
      }
      Passed(visible, todo);
    }

    /** Where the requested page starts: the top without a cursor, else by sort.Search. */
    static method FindStart(sorted: seq<UrlData>, cursor: UrlCursor) returns (start: nat)
      ensures IsStart(sorted, cursor, start)
    {
      start := 0;
      if cursor.createdAtUnixNano != 0 || cursor.shortCode != "" {
        start := Search(|sorted|, i requires 0 <= i < |sorted| => AfterKeyset(sorted[i], cursor));
      }
    }

    static method SliceFrom(sorted: seq<UrlData>, start: nat, limit: nat) returns (r: UrlList)
      ensures r == Window(sorted, start, limit)
    {
      var total := |sorted|;
      if start >= total {
        return UrlList([], total, false);
      }
      var end := start + limit;
      if end > total {
        end := total;
      }
      return UrlList(sorted[start..end], total, end < total);
    }

    /** The page is cut from one traversal; over records filed under their own codes every traversal gives the same. */
    method ListURLs(now: int, userID: string, role: string, cursor: UrlCursor, limit: nat) returns (r: UrlList)
      ensures ListedFrom(Visible(Contents(), now, userID, role), cursor, limit, r)
      ensures KeyedRows(Visible(Contents(), now, userID, role)) ==>
        r == PageAt(Visible(Contents(), now, userID, role), Position(cursor), limit) && NewestFirst(r.items)
    {
      hide *;
      var visible, order := GetAllFor(now, userID, role);
      var sorted := SortByKey(visible);
      var start := FindStart(sorted, cursor);
      r := SliceFrom(sorted, start, limit);
      SliceIsListed(visible, order, Visible(Contents(), now, userID, role), cursor, limit, start);
      if KeyedRows(Visible(Contents(), now, userID, role)) {
        SearchedSliceLists(visible, order, Visible(Contents(), now, userID, role), cursor, limit, start);
        PageIsNewestFirst(Visible(Contents(), now, userID, role), Position(cursor), limit, r);
      }
    }

    method StatsFor(now: int, userID: string, role: string) returns (totalURLs: nat, totalVisits: int)
      ensures Totals(totalURLs, totalVisits) == TotalsOf(Visible(Contents(), now, userID, role))
    {
      hide SumRows, AddUp, SumVisits, TotalsOf, Int64.Wrap, Seen, Enumerates;
      totalURLs, totalVisits := 0, 0;
      var todo := data.Keys;
      ghost var visible, rows, order := Visible(Contents(), now, userID, role), [], [];
      Passed(visible, todo);
      NothingYet();
      while todo != {}
        invariant todo <= data.Keys
        invariant Enumerates(rows, order, Seen(visible, todo))
        invariant AddUp(rows, totalURLs, totalVisits)
        decreases |todo|
      {
        var key :| key in todo;
        var entry := data[key];
        PassOne(visible, todo, key);
        if !(now > entry.expiresAt) && !(role != ROLE_ADMIN && entry.data.createdBy != userID) {
          EnumerateOneMore(rows, order, Seen(visible, todo), key, entry.data);
          TotalsOneMore(rows, entry.data, totalURLs, totalVisits);
          rows, order := rows + [entry.data], order + [key];
          totalURLs := totalURLs + 1;
          totalVisits := Int64.Wrap(totalVisits + entry.data.visits);
        }
        todo := todo - {key};
      }
      Passed(visible, todo);
      TraversalTotals(rows, order, visible, totalURLs, totalVisits);
    }
  }
}
