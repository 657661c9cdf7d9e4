/**
  Keyset pagination over any strict total order: what a page is, the two ways the
  stores compute one, and what following cursors from page to page collects.
 */
module Keyset {
  import opened Common
  import opened Orders

  datatype Page<T> = Page(items: seq<T>, more: bool)

  /** k comes strictly after the cursor; no cursor means the first page. */
  predicate After<K>(lt: (K, K) -> bool, cursor: Option<K>, k: K) {
    cursor.None? || lt(cursor.value, k)
  }

  function Keys<T, K>(key: T -> K, s: seq<T>): (ks: seq<K>)
    ensures |ks| == |s| && forall i :: 0 <= i < |s| ==> ks[i] == key(s[i])
  {
    seq(|s|, i requires 0 <= i < |s| => key(s[i]))
  }

  /**
    What a page promises, said without computing one: the limit-smallest visible
    keys after the cursor, in order, and whether any were left behind.
   */
  ghost predicate IsPage<K(!new)>(lt: (K, K) -> bool, visible: set<K>, cursor: Option<K>, limit: nat, page: Page<K>) {
    && Ascending(lt, page.items)
    && (forall k :: k in page.items ==> k in visible && After(lt, cursor, k))
    && |page.items| <= limit
    && (page.more ==> |page.items| == limit)
    && (page.more <==> exists k :: k in visible && After(lt, cursor, k) && k !in page.items)
    && (forall x, k :: x in page.items && k in visible && After(lt, cursor, k) && k !in page.items ==> lt(x, k))
  }

  /** After a common prefix, a smaller next key does not turn up later in the other list. */
  lemma {:induction false} Skipped<K(!new)>(lt: (K, K) -> bool, p: seq<K>, q: seq<K>, n: nat)
    requires StrictTotal(lt) && n < |p| && n < |q| && Ascending(lt, p) && Ascending(lt, q)
    requires forall i :: 0 <= i < n ==> p[i] == q[i]
    ensures lt(p[n], q[n]) ==> p[n] !in q
  {
  }

  lemma {:induction false} PagesAgree<K(!new)>(
    lt: (K, K) -> bool, visible: set<K>, cursor: Option<K>, limit: nat, p: Page<K>, q: Page<K>, n: nat)
    requires StrictTotal(lt) && n <= |p.items| && n <= |q.items|
    requires IsPage(lt, visible, cursor, limit, p) && IsPage(lt, visible, cursor, limit, q)
    ensures p.items[..n] == q.items[..n]
  {
    if n > 0 {
      PagesAgree(lt, visible, cursor, limit, p, q, n - 1);
      var x, y := p.items[n - 1], q.items[n - 1];
      assert forall i :: 0 <= i < n - 1 ==> p.items[i] == p.items[..n - 1][i] == q.items[i];
      assert x in p.items && y in q.items;
      Skipped(lt, p.items, q.items, n - 1);
      Skipped(lt, q.items, p.items, n - 1);
      assert !lt(x, y) && !lt(y, x);
    }
  }

  lemma {:induction false} NotLonger<K(!new)>(
    lt: (K, K) -> bool, visible: set<K>, cursor: Option<K>, limit: nat, p: Page<K>, q: Page<K>)
    requires StrictTotal(lt)
    requires IsPage(lt, visible, cursor, limit, p) && IsPage(lt, visible, cursor, limit, q)
    ensures |q.items| <= |p.items|
  {
    if |p.items| < |q.items| {
      var n := |p.items|;
      PagesAgree(lt, visible, cursor, limit, p, q, n);
      assert forall i :: 0 <= i < n ==> p.items[i] == p.items[..n][i] == q.items[i];
      Has(q.items, n);
      assert false;
    }
  }

  /** IsPage leaves no freedom: two pages for the same request are the same page. */
  lemma {:induction false} PageUnique<K(!new)>(
    lt: (K, K) -> bool, visible: set<K>, cursor: Option<K>, limit: nat, p: Page<K>, q: Page<K>)
    requires StrictTotal(lt)
    requires IsPage(lt, visible, cursor, limit, p) && IsPage(lt, visible, cursor, limit, q)
    ensures p == q
  {
    NotLonger(lt, visible, cursor, limit, p, q);
    NotLonger(lt, visible, cursor, limit, q, p);
    PagesAgree(lt, visible, cursor, limit, p, q, |p.items|);
    assert p.items == p.items[..|p.items|] && q.items == q.items[..|p.items|];
  }

  lemma {:induction false} FullWhenMore<K(!new)>(
    lt: (K, K) -> bool, visible: set<K>, cursor: Option<K>, limit: nat, page: Page<K>)
    requires IsPage(lt, visible, cursor, limit, page) && limit > 0
    ensures page.more ==> page.items != []
  {
  }

  // ----- The two ways of computing a page -----

  /** Index of the first row after the cursor; the length if there is none. */
  function FirstAfter<T, K>(key: T -> K, lt: (K, K) -> bool, cursor: Option<K>, rows: seq<T>): (i: nat)
    ensures i <= |rows|
    ensures forall j :: 0 <= j < i ==> !After(lt, cursor, key(rows[j]))
    ensures i < |rows| ==> After(lt, cursor, key(rows[i]))
  {
    if rows == [] || After(lt, cursor, key(rows[0])) then 0
    else 1 + FirstAfter(key, lt, cursor, rows[1..])
  }

  /** The in-memory form: slice the sorted rows from the cursor's position. */
  function SlicePage<T, K>(key: T -> K, lt: (K, K) -> bool, sorted: seq<T>, cursor: Option<K>, limit: nat): Page<T> {
    var start := FirstAfter(key, lt, cursor, sorted);
    if start >= |sorted| then Page([], false)
    else
      var end := if start + limit > |sorted| then |sorted| else start + limit;
      Page(sorted[start..end], end < |sorted|)
  }

  function RowsAfter<T(!new), K>(key: T -> K, lt: (K, K) -> bool, cursor: Option<K>, rows: seq<T>): (r: seq<T>)
    ensures forall x :: x in r <==> x in rows && After(lt, cursor, key(x))
  {
    if rows == [] then []
    else
      assert rows == [rows[0]] + rows[1..];
      (if After(lt, cursor, key(rows[0])) then [rows[0]] else []) + RowsAfter(key, lt, cursor, rows[1..])
  }

  function Truncate<T>(s: seq<T>, limit: nat): Page<T> {
    if |s| > limit then Page(s[..limit], true) else Page(s, false)
  }

  /** The SQL form: WHERE the row is after the cursor, ORDER BY key, LIMIT limit+1, and drop the probe row. */
  function LimitPlusOnePage<T(!new), K>(
    key: T -> K, lt: (K, K) -> bool, rows: seq<T>, cursor: Option<K>, limit: nat): Page<T> {
    var matching := SortBy(key, lt, RowsAfter(key, lt, cursor, rows));
    var fetched := if |matching| > limit + 1 then matching[..limit + 1] else matching;
    Truncate(fetched, limit)
  }

  /** Along a sorted list the rows after the cursor are exactly the tail from FirstAfter. */
  lemma {:induction false} AfterIsSuffix<T(!new), K(!new)>(
    key: T -> K, lt: (K, K) -> bool, sorted: seq<T>, cursor: Option<K>, j: nat)
    requires StrictTotal(lt) && Sorted(key, lt, sorted) && j < |sorted|
    ensures After(lt, cursor, key(sorted[j])) <==> FirstAfter(key, lt, cursor, sorted) <= j
  {
    var i := FirstAfter(key, lt, cursor, sorted);
    if i < j {
      assert lt(key(sorted[i]), key(sorted[j]));
    }
  }

  lemma {:induction false} RowsAfterDistinct<T(!new), K(!new)>(
    key: T -> K, lt: (K, K) -> bool, cursor: Option<K>, rows: seq<T>)
    requires Distinct(key, rows)
    ensures Distinct(key, RowsAfter(key, lt, cursor, rows))
  {
    if rows != [] {
      var r := RowsAfter(key, lt, cursor, rows[1..]);
      RowsAfterDistinct(key, lt, cursor, rows[1..]);
      forall x | x in r
        ensures key(x) != key(rows[0])
      {
        var i :| 0 <= i < |rows[1..]| && rows[1..][i] == x;
        assert rows[i + 1] == x;
      }
    }
  }

  lemma {:induction false} TailIsAfter<T(!new), K(!new)>(
    key: T -> K, lt: (K, K) -> bool, sorted: seq<T>, cursor: Option<K>)
    requires StrictTotal(lt) && Sorted(key, lt, sorted)
    ensures var start := FirstAfter(key, lt, cursor, sorted);
            forall x :: x in sorted[start..] <==> x in sorted && After(lt, cursor, key(x))
  {
    var start := FirstAfter(key, lt, cursor, sorted);
    forall x
      ensures x in sorted[start..] <==> x in sorted && After(lt, cursor, key(x))
    {
      if x in sorted {
        var j :| 0 <= j < |sorted| && sorted[j] == x;
        AfterIsSuffix(key, lt, sorted, cursor, j);
        if start <= j {
          assert sorted[start..][j - start] == x;
        }
      }
      if x in sorted[start..] {
        var i :| 0 <= i < |sorted[start..]| && sorted[start..][i] == x;
        AfterIsSuffix(key, lt, sorted, cursor, start + i);
      }
    }
  }

  lemma {:induction false} TailIsMatching<T(!new), K(!new)>(
    key: T -> K, lt: (K, K) -> bool, rows: seq<T>, stored: seq<T>, cursor: Option<K>)
    requires StrictTotal(lt) && Distinct(key, rows) && Distinct(key, stored)
    requires forall x :: x in rows <==> x in stored
    ensures var sorted := SortBy(key, lt, rows);
            sorted[FirstAfter(key, lt, cursor, sorted)..] == SortBy(key, lt, RowsAfter(key, lt, cursor, stored))
  {
    var sorted := SortBy(key, lt, rows);
    var kept := RowsAfter(key, lt, cursor, stored);
    var matching := SortBy(key, lt, kept);
    var tail := sorted[FirstAfter(key, lt, cursor, sorted)..];
    assert Sorted(key, lt, sorted) by { SortBySorted(key, lt, rows); }
    assert Sorted(key, lt, matching) by {
      RowsAfterDistinct(key, lt, cursor, stored);
      SortBySorted(key, lt, kept);
    }
    assert forall x :: x in tail <==> x in matching by {
      TailIsAfter(key, lt, sorted, cursor);
      SameElements(sorted, rows);
      SameElements(matching, kept);
    }
    SortedUnique(key, lt, tail, matching);
  }

  lemma {:induction false} SliceIsTruncatedTail<T, K>(
    key: T -> K, lt: (K, K) -> bool, sorted: seq<T>, cursor: Option<K>, limit: nat)
    ensures SlicePage(key, lt, sorted, cursor, limit) == Truncate(sorted[FirstAfter(key, lt, cursor, sorted)..], limit)
  {
    var start := FirstAfter(key, lt, cursor, sorted);
    hide FirstAfter, After;
    assert start + limit <= |sorted| ==> sorted[start..start + limit] == sorted[start..][..limit];
  }

  /** Slicing the sorted rows and fetching limit+1 of the filtered rows give the same page, for any cursor. */
  lemma {:induction false} SliceRefinesLimitPlusOne<T(!new), K(!new)>(
    key: T -> K, lt: (K, K) -> bool, rows: seq<T>, stored: seq<T>, cursor: Option<K>, limit: nat)
    requires StrictTotal(lt) && Distinct(key, rows) && Distinct(key, stored)
    requires forall x :: x in rows <==> x in stored
    ensures SlicePage(key, lt, SortBy(key, lt, rows), cursor, limit) == LimitPlusOnePage(key, lt, stored, cursor, limit)
  {
    hide StrictTotal, Distinct, SortBy, SlicePage, FirstAfter, RowsAfter;
    SliceIsTruncatedTail(key, lt, SortBy(key, lt, rows), cursor, limit);
    TailIsMatching(key, lt, rows, stored, cursor);
  }

  lemma {:induction false} AfterAlongKeys<T(!new), K(!new)>(
    key: T -> K, lt: (K, K) -> bool, sorted: seq<T>, cursor: Option<K>)
    requires StrictTotal(lt) && Sorted(key, lt, sorted)
    ensures var keys, start := Keys(key, sorted), FirstAfter(key, lt, cursor, sorted);
            Ascending(lt, keys) && forall j :: 0 <= j < |keys| ==> (After(lt, cursor, keys[j]) <==> start <= j)
  {
    forall j | 0 <= j < |sorted|
      ensures After(lt, cursor, key(sorted[j])) <==> FirstAfter(key, lt, cursor, sorted) <= j
    {
      AfterIsSuffix(key, lt, sorted, cursor, j);
    }
  }

  lemma {:induction false} KeysOfSlice<T, K>(
    key: T -> K, lt: (K, K) -> bool, sorted: seq<T>, cursor: Option<K>, limit: nat)
    ensures var start := FirstAfter(key, lt, cursor, sorted);
            var p := SlicePage(key, lt, sorted, cursor, limit);
            && start + |p.items| <= |sorted|
            && Keys(key, p.items) == Keys(key, sorted)[start..start + |p.items|]
            && (p.more <==> start + |p.items| < |sorted|)
            && |p.items| <= limit && (p.more ==> |p.items| == limit)
  {
  }

  lemma {:induction false} KeySliceIsPage<K(!new)>(
    lt: (K, K) -> bool, keys: seq<K>, visible: set<K>, cursor: Option<K>, start: nat, end: nat, limit: nat)
    requires StrictTotal(lt) && Ascending(lt, keys) && start <= end <= |keys|
    requires forall k :: k in visible <==> k in keys
    requires forall j :: 0 <= j < |keys| ==> (After(lt, cursor, keys[j]) <==> start <= j)
    requires end - start <= limit && (end < |keys| ==> end - start == limit)
    ensures IsPage(lt, visible, cursor, limit, Page(keys[start..end], end < |keys|))
  {
    var items := keys[start..end];
    forall k | k in visible && After(lt, cursor, k) && k !in items
      ensures exists j :: end <= j < |keys| && keys[j] == k
    {
      var j :| 0 <= j < |keys| && keys[j] == k;
      SliceHas(keys, start, end, j);
    }
    if end < |keys| {
      assert keys[end] in keys && keys[end] !in items;
    }
  }

  /** The sliced page meets the declarative definition, over whatever set of keys the rows carry. */
  lemma {:induction false} SliceIsPage<T(!new), K(!new)>(
    key: T -> K, lt: (K, K) -> bool, sorted: seq<T>, visible: set<K>, cursor: Option<K>, limit: nat)
    requires StrictTotal(lt) && Sorted(key, lt, sorted)
    requires forall k :: k in visible <==> k in Keys(key, sorted)
    ensures var p := SlicePage(key, lt, sorted, cursor, limit);
            IsPage(lt, visible, cursor, limit, Page(Keys(key, p.items), p.more))
  {
    hide *;
    AfterAlongKeys(key, lt, sorted, cursor);
    KeysOfSlice(key, lt, sorted, cursor, limit);
    var start := FirstAfter(key, lt, cursor, sorted);
    var p := SlicePage(key, lt, sorted, cursor, limit);
    KeySliceIsPage(lt, Keys(key, sorted), visible, cursor, start, start + |p.items|, limit);
  }
}
