/** Following next_cursor through URLService.ListURLs, with the store changing between the requests. */
module UrlWalks {
  import opened Common
  import opened Orders
  import opened Keyset
  import opened Walks
  import opened UrlTable
  import opened UrlRuns
  import opened UrlService
  import opened Cursors
  import Int64
  import Storage

  /** One request: the records visible to the caller when it ran, its parameters, and its answer. */
  datatype Fetch = Fetch(
    visible: map<string, UrlData>, limit: int, cursorText: string, answer: Result<UrlPage, ServiceError>)

  /** Every request passes the next_cursor of the one before it; the first passes none. */
  ghost predicate FollowsCursors(walk: seq<Fetch>, cursorText: string)
    decreases |walk|
  {
    walk != [] ==>
      && walk[0].cursorText == cursorText
      && walk[0].answer == ServePage(walk[0].visible, walk[0].limit, cursorText)
      && (|walk| > 1 ==>
        && walk[0].answer.Ok? && walk[0].answer.value.nextCursor != ""
        && FollowsCursors(walk[1..], walk[0].answer.value.nextCursor))
  }

  /** The service takes a cursor back only if neither half of it is a zero value. */
  predicate Usable(k: UrlCursor) {
    k.createdAtUnixNano != 0 && k.shortCode != ""
  }

  predicate AllUsable(m: map<string, UrlData>) {
    forall c :: c in m ==> Usable(KeyOf(m[c]))
  }

  /** Records filed under their own codes, none with a zero half in its key: what the service files. */
  ghost predicate Regular(m: map<string, UrlData>) {
    KeyedRows(m) && AllUsable(m)
  }

  /** The text a caller sends for a position. */
  function TextOf(cursor: Option<UrlCursor>): string {
    match cursor
    case None => ""
    case Some(k) => EncodeUrlCursor(k)
  }

  /** A key is accepted as a cursor exactly when it is usable, and then means that position. */
  lemma {:induction false} CursorAccepted(m: map<string, UrlData>, limit: int, k: UrlCursor)
    requires Int64.Fits(k.createdAtUnixNano)
    ensures ServePage(m, limit, EncodeUrlCursor(k)).Ok? <==> Usable(k)
    ensures !Usable(k) ==> ServePage(m, limit, EncodeUrlCursor(k)) == Err(InvalidCursor)
    ensures Usable(k) ==>
      var list := PageAt(m, Some(k), NormalizeLimit(limit));
      ServePage(m, limit, EncodeUrlCursor(k)) == Ok(UrlPage(list.items, NextCursor(list), list.total, list.hasMore))
  {
    hide PageAt, DecodeUrlCursor, EncodeUrlCursor, NextCursor;
    UrlCursorRoundTrip(k);
  }

  lemma {:induction false} FirstPageServed(m: map<string, UrlData>, limit: int)
    ensures var list := PageAt(m, None, NormalizeLimit(limit));
            ServePage(m, limit, "") == Ok(UrlPage(list.items, NextCursor(list), list.total, list.hasMore))
  {
    hide PageAt, NextCursor, DecodeUrlCursor;
  }

  /** The cursor a page leaves is there when more follow, and holds creation time and code of its last record. */
  lemma {:induction false} CursorOfLast(list: UrlList)
    requires list.hasMore ==> list.items != []
    ensures NextCursor(list) != "" <==> list.hasMore
    ensures list.hasMore ==>
      var last, c := list.items[|list.items| - 1], DecodeUrlCursor(NextCursor(list));
      && c.Some? && c.value.shortCode == last.shortCode
      && (Int64.Fits(last.createdAt) ==> c.value.createdAtUnixNano == last.createdAt)
  {
    hide DecodeUrlCursor, EncodeUrlCursor;
    if list.hasMore {
      UrlCursorRoundTrip(KeyOf(list.items[|list.items| - 1]));
    }
  }

  lemma {:induction false} PageFacts(m: map<string, UrlData>, position: Option<UrlCursor>, limit: nat)
    requires KeyedRows(m) && limit > 0
    ensures var list := PageAt(m, position, limit);
            NewestFirst(list.items) && list.total == |m| && (list.hasMore ==> list.items != [])
  {
    var list := PageAt(m, position, limit);
    assert ListsPage(m, position, limit, list);
    hide PageAt, KeyedRows, NewestFirst, IsPage;
    PageIsNewestFirst(m, position, limit, list);
    FullWhenMore(Before, KeySet(m), position, limit, Page(Keys(KeyOf, list.items), list.hasMore));
  }

  /**
    A served page lists its records newest first and counts all visible ones; its next_cursor is there
    exactly when more records follow, and holds the creation time and the code of the last one listed.
   */
  lemma {:induction false} NextCursorIsLast(m: map<string, UrlData>, limit: int, text: string)
    requires KeyedRows(m) && ServePage(m, limit, text).Ok?
    ensures var page := ServePage(m, limit, text).value;
            && NewestFirst(page.urls) && page.total == |m|
            && (page.hasMore ==> page.urls != []) && (page.nextCursor != "" <==> page.hasMore)
            && (page.hasMore ==>
                 var last, c := page.urls[|page.urls| - 1], DecodeUrlCursor(page.nextCursor);
                 && c.Some? && c.value.shortCode == last.shortCode
                 && (Int64.Fits(last.createdAt) ==> c.value.createdAtUnixNano == last.createdAt))
  {
    var position := Storage.Position(ReadCursor(text).value);
    var list := PageAt(m, position, NormalizeLimit(limit));
    assert ServePage(m, limit, text).value
           == UrlPage(list.items, NextCursor(list), list.total, list.hasMore);
    hide *;
    PageFacts(m, position, NormalizeLimit(limit));
    CursorOfLast(list);
  }

  /** A page's own next_cursor is refused exactly when its last record has a zero half in its key. */
  lemma {:induction false} NextCursorUsable(
    m: map<string, UrlData>, limit: int, text: string, later: map<string, UrlData>, laterLimit: int)
    requires ServePage(m, limit, text).Ok? && ServePage(m, limit, text).value.nextCursor != ""
    ensures var page := ServePage(m, limit, text).value;
            page.urls != [] &&
            (ServePage(later, laterLimit, page.nextCursor).Ok? <==> Usable(KeyOf(page.urls[|page.urls| - 1])))
  {
    hide PageAt, DecodeUrlCursor, Usable;
    var page := ServePage(m, limit, text).value;
    assert page.urls != [] && page.nextCursor == EncodeUrlCursor(KeyOf(page.urls[|page.urls| - 1]));
    CursorAccepted(later, laterLimit, KeyOf(page.urls[|page.urls| - 1]));
  }

  lemma {:induction false} TwoRecordPage(a: UrlData, b: UrlData, m: map<string, UrlData>, list: UrlList)
    requires a.shortCode != b.shortCode && NewerThan(a, b) && m == map[a.shortCode := a, b.shortCode := b]
    requires list == UrlList([a], 2, true)
    ensures ListsPage(m, None, 1, list)
  {
    assert |m.Keys| == |m| && m.Keys == {a.shortCode, b.shortCode};
    assert KeySet(m) == {KeyOf(a), KeyOf(b)};
    assert Before(KeyOf(a), KeyOf(b)) && KeyOf(a) != KeyOf(b);
    assert Keys(KeyOf, list.items) == [KeyOf(a)];
  }

  /** Two records, the newer with a zero half in its key, listed one a page: the first page's next_cursor is refused. */
  lemma {:induction false} ZeroKeyRefused(
    a: UrlData, b: UrlData, later: map<string, UrlData>, laterLimit: int) returns (page: UrlPage)
    requires a.shortCode != b.shortCode && NewerThan(a, b) && !Usable(KeyOf(a))
    ensures var m := map[a.shortCode := a, b.shortCode := b];
            KeyedRows(m) && ServePage(m, 1, "") == Ok(page) && page.hasMore && page.nextCursor != ""
    ensures ServePage(later, laterLimit, page.nextCursor) == Err(InvalidCursor)
  {
    var m := map[a.shortCode := a, b.shortCode := b];
    var list := UrlList([a], 2, true);
    TwoRecordPage(a, b, m, list);
    assert KeyedRows(m) && Int64.Fits(KeyOf(a).createdAtUnixNano) && NormalizeLimit(1) == 1;
    page := UrlPage(list.items, EncodeUrlCursor(KeyOf(a)), list.total, list.hasMore);
    assert page.nextCursor == NextCursor(list);
    hide *;
    ListsPageUnique(m, None, 1, PageAt(m, None, 1), list);
    FirstPageServed(m, 1);
    UrlCursorRoundTrip(KeyOf(a));
    CursorAccepted(later, laterLimit, KeyOf(a));
  }

  /** For instance two records created at nanosecond 0 of 1970. */
  lemma {:induction false} NextCursorRefused(later: map<string, UrlData>, laterLimit: int)
    returns (m: map<string, UrlData>, page: UrlPage)
    ensures KeyedRows(m) && ServePage(m, 1, "") == Ok(page) && page.hasMore && page.nextCursor != ""
    ensures ServePage(later, laterLimit, page.nextCursor) == Err(InvalidCursor)
  {
    hide ServePage;
    var a := UrlData("1", "a", "http://a", "24h", 10, 0, "u", 0);
    var b := UrlData("2", "b", "http://b", "24h", 10, 0, "u", 0);
    m := map[a.shortCode := a, b.shortCode := b];
    page := ZeroKeyRefused(a, b, later, laterLimit);
  }

  function RequestOf(f: Fetch): Request<UrlCursor>
    requires f.answer.Ok?
  {
    Request(KeySet(f.visible), NormalizeLimit(f.limit), Page(Keys(KeyOf, f.answer.value.urls), f.answer.value.hasMore))
  }

  function Requests(walk: seq<Fetch>): (r: seq<Request<UrlCursor>>)
    requires forall f :: f in walk ==> f.answer.Ok?
    ensures |r| == |walk| && forall i :: 0 <= i < |walk| ==> r[i] == RequestOf(walk[i])
  {
    seq(|walk|, i requires 0 <= i < |walk| => RequestOf(walk[i]))
  }

  lemma {:induction false} RequestsTail(walk: seq<Fetch>)
    requires walk != [] && forall f :: f in walk ==> f.answer.Ok?
    ensures (forall f :: f in walk[1..] ==> f in walk) && Requests(walk)[1..] == Requests(walk[1..])
  {
    hide RequestOf;
    forall f | f in walk[1..]
      ensures f in walk
    {
    }
    assert forall i :: 0 <= i < |walk| - 1 ==> Requests(walk)[1..][i] == RequestOf(walk[i + 1]) == Requests(walk[1..])[i];
  }

  /** All records returned by the walk, in the order they came. */
  function Returned(walk: seq<Fetch>): seq<UrlData> {
    if walk == [] then [] else (if walk[0].answer.Ok? then walk[0].answer.value.urls else []) + Returned(walk[1..])
  }

  /** One fetch at a usable position: it is served, with a page for that position. */
  lemma {:induction false} FetchIsPage(f: Fetch, cursor: Option<UrlCursor>)
    requires KeyedRows(f.visible) && f.answer == ServePage(f.visible, f.limit, TextOf(cursor))
    requires cursor.Some? ==> Usable(cursor.value) && Int64.Fits(cursor.value.createdAtUnixNano)
    ensures f.answer.Ok?
    ensures IsPage(Before, KeySet(f.visible), cursor, NormalizeLimit(f.limit), RequestOf(f).page)
    ensures var urls := f.answer.value.urls;
            f.answer.value.nextCursor ==
              if f.answer.value.hasMore && urls != [] then EncodeUrlCursor(KeyOf(urls[|urls| - 1])) else ""
    ensures f.answer.value.hasMore ==> f.answer.value.urls != []
    ensures forall u :: u in f.answer.value.urls ==> u.shortCode in f.visible && f.visible[u.shortCode] == u
    ensures f.answer.value.total == |f.visible|
  {
    hide ServePage, IsPage, EncodeUrlCursor;
    FirstPageServed(f.visible, f.limit);
    if cursor.Some? { CursorAccepted(f.visible, f.limit, cursor.value); }
    var list := PageAt(f.visible, cursor, NormalizeLimit(f.limit));
    assert ListsPage(f.visible, cursor, NormalizeLimit(f.limit), list);
    FullWhenMore(Before, KeySet(f.visible), cursor, NormalizeLimit(f.limit), Page(Keys(KeyOf, list.items), list.hasMore));
  }

  /** Where the request after a served one stands. */
  function NextPosition(f: Fetch): Option<UrlCursor>
    requires f.answer.Ok? && f.answer.value.urls != []
  {
    var urls := f.answer.value.urls;
    Some(KeyOf(urls[|urls| - 1]))
  }

  lemma {:induction false} WalkOn(walk: seq<Fetch>, cursor: Option<UrlCursor>)
    requires FollowsCursors(walk, TextOf(cursor)) && |walk| > 1 && Regular(walk[0].visible)
    requires cursor.Some? ==> Usable(cursor.value) && Int64.Fits(cursor.value.createdAtUnixNano)
    ensures walk[0].answer.Ok? && walk[0].answer.value.urls != [] && walk[0].answer.value.hasMore
    ensures var next := NextPosition(walk[0]);
            && Usable(next.value) && Int64.Fits(next.value.createdAtUnixNano)
            && FollowsCursors(walk[1..], TextOf(next))
  {
    hide ServePage, IsPage, EncodeUrlCursor, NormalizeLimit, KeySet;
    var f := walk[0];
    FetchIsPage(f, cursor);
    var urls := f.answer.value.urls;
    Has(urls, |urls| - 1);
    assert urls != [] ==> var last := urls[|urls| - 1]; f.visible[last.shortCode] == last && last.shortCode in f.visible;
  }

  lemma {:induction false} UrlCursorText(f: Fetch, cursor: Option<UrlCursor>)
    requires KeyedRows(f.visible) && f.answer == ServePage(f.visible, f.limit, TextOf(cursor))
    requires cursor.Some? ==> Usable(cursor.value) && Int64.Fits(cursor.value.createdAtUnixNano)
    ensures f.answer.Ok? && (f.answer.value.nextCursor == "" <==> !f.answer.value.hasMore)
  {
    hide ServePage, IsPage, EncodeUrlCursor, NormalizeLimit, KeySet;
    FetchIsPage(f, cursor);
    if f.answer.value.hasMore {
      UrlCursorRoundTrip(KeyOf(f.answer.value.urls[|f.answer.value.urls| - 1]));
    }
  }

  lemma {:induction false} FirstIsPage(walk: seq<Fetch>, cursor: Option<UrlCursor>)
    requires FollowsCursors(walk, TextOf(cursor)) && walk != [] && Regular(walk[0].visible)
    requires cursor.Some? ==> Usable(cursor.value) && Int64.Fits(cursor.value.createdAtUnixNano)
    ensures walk[0].answer.Ok?
    ensures IsPage(Before, KeySet(walk[0].visible), cursor, NormalizeLimit(walk[0].limit), RequestOf(walk[0]).page)
    ensures walk[0].answer.value.nextCursor == "" <==> !walk[0].answer.value.hasMore
  {
    hide ServePage, IsPage, EncodeUrlCursor, NormalizeLimit, KeySet;
    FetchIsPage(walk[0], cursor);
    UrlCursorText(walk[0], cursor);
  }

  lemma {:induction false} LastKey(f: Fetch)
    requires f.answer.Ok? && f.answer.value.urls != []
    ensures var items := RequestOf(f).page.items; items != [] && Some(items[|items| - 1]) == NextPosition(f)
    ensures RequestOf(f).page.more == f.answer.value.hasMore
  {
  }

  /** The service's walk is a walk of pages in the sense of the pagination theory. */
  lemma {:induction false} ServiceWalk(walk: seq<Fetch>, cursor: Option<UrlCursor>)
    requires FollowsCursors(walk, TextOf(cursor))
    requires cursor.Some? ==> Usable(cursor.value) && Int64.Fits(cursor.value.createdAtUnixNano)
    requires forall f :: f in walk ==> Regular(f.visible)
    ensures forall f :: f in walk ==> f.answer.Ok?
    ensures Follows(Before, cursor, Requests(walk))
    decreases |walk|
  {
    hide ServePage, IsPage, EncodeUrlCursor, NormalizeLimit, KeySet, FollowsCursors, TextOf, Regular, Usable;
    if walk != [] {
      assert walk[0] in walk && walk == [walk[0]] + walk[1..];
      FirstIsPage(walk, cursor);
      hide Follows;
      if |walk| > 1 {
        WalkOn(walk, cursor);
        assert forall g :: g in walk[1..] ==> g in walk;
        ServiceWalk(walk[1..], NextPosition(walk[0]));
        RequestsTail(walk);
        LastKey(walk[0]);
      } else {
        assert walk[1..] == [];
      }
      FollowsOn(Before, cursor, Requests(walk));
    }
  }

  lemma {:induction false} ReturnedKeys(walk: seq<Fetch>)
    requires forall f :: f in walk ==> f.answer.Ok?
    ensures Collected(Requests(walk)) == Keys(KeyOf, Returned(walk))
  {
    hide KeySet, NormalizeLimit;
    if walk != [] {
      assert walk[0] in walk && forall g :: g in walk[1..] ==> g in walk;
      ReturnedKeys(walk[1..]);
      RequestsTail(walk);
      assert Keys(KeyOf, Returned(walk)) == Keys(KeyOf, walk[0].answer.value.urls) + Keys(KeyOf, Returned(walk[1..]));
    }
  }

  predicate Finished(walk: seq<Fetch>) {
    walk != [] && walk[|walk| - 1].answer.Ok? && walk[|walk| - 1].answer.value.nextCursor == ""
  }

  lemma {:induction false} LastFetch(walk: seq<Fetch>, cursor: Option<UrlCursor>)
    requires FollowsCursors(walk, TextOf(cursor)) && walk != [] && forall f :: f in walk ==> Regular(f.visible)
    requires cursor.Some? ==> Usable(cursor.value) && Int64.Fits(cursor.value.createdAtUnixNano)
    ensures var answer := walk[|walk| - 1].answer; answer.Ok? && (answer.value.nextCursor == "" <==> !answer.value.hasMore)
    decreases |walk|
  {
    hide ServePage, IsPage, EncodeUrlCursor, NormalizeLimit, KeySet, FollowsCursors, TextOf, Regular, Usable, RequestOf;
    assert walk[0] in walk;
    FirstIsPage(walk, cursor);
    if |walk| > 1 {
      WalkOn(walk, cursor);
      assert forall g :: g in walk[1..] ==> g in walk;
      LastFetch(walk[1..], NextPosition(walk[0]));
    }
  }

  /** A walk is finished exactly when its last page has nothing after it. */
  lemma {:induction false} FinishedIsComplete(walk: seq<Fetch>, cursor: Option<UrlCursor>)
    requires FollowsCursors(walk, TextOf(cursor)) && walk != []
    requires cursor.Some? ==> Usable(cursor.value) && Int64.Fits(cursor.value.createdAtUnixNano)
    requires forall f :: f in walk ==> f.answer.Ok? && Regular(f.visible)
    ensures Finished(walk) <==> Complete(Requests(walk))
  {
    hide FollowsCursors, TextOf, Regular, Usable, KeySet, Keys, KeyOf, NormalizeLimit;
    LastFetch(walk, cursor);
    assert Requests(walk)[|walk| - 1] == RequestOf(walk[|walk| - 1]);
  }

  /**
    The walk theorem for the service. Whatever happens to the store between the requests, no
    request is refused, keys strictly advance (so none comes twice), and a record visible to
    every request of a finished walk comes exactly once.
   */
  lemma {:induction false} UrlWalkUnderWrites(walk: seq<Fetch>, k: UrlCursor)
    requires FollowsCursors(walk, "") && forall f :: f in walk ==> Regular(f.visible)
    ensures forall f :: f in walk ==> f.answer.Ok?
    ensures Ascending(Before, Keys(KeyOf, Returned(walk)))
    ensures Finished(walk) && (forall f :: f in walk ==> k in KeySet(f.visible)) ==>
      multiset(Keys(KeyOf, Returned(walk)))[k] == 1
  {
    hide ServePage, EncodeUrlCursor, NormalizeLimit, KeySet, FollowsCursors, Follows, Collected, Regular;
    assert TextOf(None) == "";
    ServiceWalk(walk, None);
    ReturnedKeys(walk);
    BeforeStrictTotal();
    WalkAdvances(Before, None, Requests(walk));
    if Finished(walk) && forall f :: f in walk ==> k in KeySet(f.visible) {
      FinishedIsComplete(walk, None);
      forall r | r in Requests(walk)
        ensures k in r.visible
      {
        var i :| 0 <= i < |Requests(walk)| && Requests(walk)[i] == r;
        assert walk[i] in walk;
      }
      WalkUnderWrites(Before, Requests(walk), k);
    }
  }

  /** All requests see the same records and ask for the same limit. */
  predicate Static(walk: seq<Fetch>, m: map<string, UrlData>, limit: int) {
    forall f :: f in walk ==> f.visible == m && f.limit == limit
  }

  lemma {:induction false} StaticRequests(walk: seq<Fetch>, m: map<string, UrlData>, limit: int)
    requires Static(walk, m, limit) && forall f :: f in walk ==> f.answer.Ok?
    ensures forall r :: r in Requests(walk) ==> r.visible == KeySet(m) && r.limit == NormalizeLimit(limit)
  {
    hide KeySet, NormalizeLimit;
    var requests := Requests(walk);
    forall r | r in requests
      ensures r.visible == KeySet(m) && r.limit == NormalizeLimit(limit)
    {
      var i :| 0 <= i < |requests| && requests[i] == r;
      assert walk[i] in walk;
    }
  }

  lemma {:induction false} StaticRegular(walk: seq<Fetch>, m: map<string, UrlData>, limit: int)
    requires Regular(m) && Static(walk, m, limit)
    ensures forall f :: f in walk ==> Regular(f.visible)
  {
  }

  lemma {:induction false} StaticEnds(walk: seq<Fetch>, m: map<string, UrlData>, limit: int)
    requires FollowsCursors(walk, "") && walk != [] && Regular(m) && Static(walk, m, limit)
    ensures forall f :: f in walk ==> f.answer.Ok?
    ensures |walk| <= Pages(|KeySet(m)|, NormalizeLimit(limit))
    ensures Finished(walk) <==> |walk| == Pages(|KeySet(m)|, NormalizeLimit(limit))
  {
    assert TextOf(None) == "";
    hide *;
    assert forall f :: f in walk ==> Regular(f.visible) by { StaticRegular(walk, m, limit); }
    ServiceWalk(walk, None);
    FinishedIsComplete(walk, None);
    BeforeStrictTotal();
    StaticRequests(walk, m, limit);
    StaticWalkEnds(Before, Requests(walk), KeySet(m), NormalizeLimit(limit));
  }

  lemma {:induction false} ReturnedAreVisible(walk: seq<Fetch>, cursor: Option<UrlCursor>, m: map<string, UrlData>, limit: int)
    requires FollowsCursors(walk, TextOf(cursor)) && Regular(m) && Static(walk, m, limit)
    requires cursor.Some? ==> Usable(cursor.value) && Int64.Fits(cursor.value.createdAtUnixNano)
    ensures forall u :: u in Returned(walk) ==> u.shortCode in m && m[u.shortCode] == u
    decreases |walk|
  {
    hide ServePage, IsPage, EncodeUrlCursor, NormalizeLimit, KeySet, TextOf, AllUsable, Usable;
    if walk != [] {
      assert walk[0] in walk;
      FetchIsPage(walk[0], cursor);
      if |walk| > 1 {
        WalkOn(walk, cursor);
        assert forall g :: g in walk[1..] ==> g in walk;
        ReturnedAreVisible(walk[1..], NextPosition(walk[0]), m, limit);
      } else {
        assert Returned(walk[1..]) == [];
      }
    }
  }

  /** Records of one store with the same keys in the same order are the same records. */
  lemma {:induction false} SameKeysSameRecords(s: seq<UrlData>, t: seq<UrlData>, m: map<string, UrlData>)
    requires Keys(KeyOf, s) == Keys(KeyOf, t)
    requires forall u :: u in s || u in t ==> u.shortCode in m && m[u.shortCode] == u
    ensures s == t
  {
    assert |s| == |Keys(KeyOf, s)| == |t|;
    forall i | 0 <= i < |s|
      ensures s[i] == t[i]
    {
      assert Keys(KeyOf, s)[i] == KeyOf(s[i]) && Keys(KeyOf, t)[i] == KeyOf(t[i]);
      assert s[i] in s && t[i] in t;
    }
  }

  lemma {:induction false} KeySetSize(m: map<string, UrlData>, all: seq<UrlData>)
    requires KeyedRows(m) && Sorted(KeyOf, Before, all)
    requires forall u :: u in all <==> u.shortCode in m && m[u.shortCode] == u
    ensures |KeySet(m)| == |all|
  {
    BeforeStrictTotal();
    SortedKeySet(all, m);
    assert Ascending(Before, Keys(KeyOf, all));
    hide KeySet, Before;
    AscendingFits(Before, Keys(KeyOf, all), KeySet(m));
    Covers(Keys(KeyOf, all), KeySet(m));
  }

  lemma {:induction false} AscendingKeys(all: seq<UrlData>)
    requires Sorted(KeyOf, Before, all)
    ensures Ascending(Before, Keys(KeyOf, all))
  {
  }

  /**
    On an unchanged store, following next_cursor is finished after exactly max(1, ceil(n / limit))
    pages, no sooner and no later, and has then returned the sorted list of visible records.
   */
  lemma {:induction false} UrlStaticWalk(walk: seq<Fetch>, m: map<string, UrlData>, limit: int, all: seq<UrlData>)
    requires FollowsCursors(walk, "") && walk != [] && Regular(m) && Static(walk, m, limit)
    requires Sorted(KeyOf, Before, all) && forall u :: u in all <==> u.shortCode in m && m[u.shortCode] == u
    ensures forall f :: f in walk ==> f.answer.Ok?
    ensures |walk| <= Pages(|all|, NormalizeLimit(limit))
    ensures Finished(walk) <==> |walk| == Pages(|all|, NormalizeLimit(limit))
    ensures Finished(walk) ==> Returned(walk) == all
  {
    assert TextOf(None) == "" && KeyedRows(m);
    hide *;
    StaticEnds(walk, m, limit);
    KeySetSize(m, all);
    if Finished(walk) {
      StaticRegular(walk, m, limit);
      ServiceWalk(walk, None);
      FinishedIsComplete(walk, None);
      ReturnedKeys(walk);
      StaticRequests(walk, m, limit);
      SortedKeySet(all, m);
      BeforeStrictTotal();
      AscendingKeys(all);
      StaticWalk(Before, Requests(walk), Keys(KeyOf, all));
      ReturnedAreVisible(walk, None, m, limit);
      SameKeysSameRecords(Returned(walk), all, m);
    }
  }

  /** One more request with the cursor the last one left. */
  lemma {:induction false} OneMoreFetch(walk: seq<Fetch>, text: string, f: Fetch)
    requires FollowsCursors(walk, text) && walk != []
    requires walk[|walk| - 1].answer.Ok? && walk[|walk| - 1].answer.value.nextCursor == f.cursorText != ""
    requires f.answer == ServePage(f.visible, f.limit, f.cursorText)
    ensures FollowsCursors(walk + [f], text)
    decreases |walk|
  {
    hide ServePage;
    if |walk| == 1 {
      assert (walk + [f])[1..] == [f] && [f][1..] == [];
    } else {
      OneMoreFetch(walk[1..], walk[0].answer.value.nextCursor, f);
      assert (walk + [f])[1..] == walk[1..] + [f];
    }
  }

  /** ... and such a walk exists: an unfinished one can go on, so every walk reaches its end. */
  lemma {:induction false} UrlWalkEnds(walk: seq<Fetch>, m: map<string, UrlData>, limit: int) returns (whole: seq<Fetch>)
    requires FollowsCursors(walk, "") && Regular(m) && Static(walk, m, limit)
    ensures FollowsCursors(whole, "") && Static(whole, m, limit) && Finished(whole) && walk <= whole
    decreases Pages(|KeySet(m)|, NormalizeLimit(limit)) - |walk|
  {
    hide ServePage, KeySet, NormalizeLimit, Pages, Regular;
    if walk == [] {
      var first := [Fetch(m, limit, "", ServePage(m, limit, ""))];
      assert first[1..] == [];
      hide FollowsCursors;
      StaticEnds(first, m, limit);
      whole := UrlWalkEnds(first, m, limit);
    } else {
      StaticEnds(walk, m, limit);
      var last := walk[|walk| - 1];
      assert last in walk;
      if Finished(walk) {
        whole := walk;
      } else {
        var text := last.answer.value.nextCursor;
        var f := Fetch(m, limit, text, ServePage(m, limit, text));
        OneMoreFetch(walk, "", f);
        hide FollowsCursors;
        StaticEnds(walk + [f], m, limit);
        whole := UrlWalkEnds(walk + [f], m, limit);
      }
    }
  }

  /** Request j of the walk is answered after the first at[j] events of the run, at the instant nows[j]. */
  ghost predicate Observes(
    walk: seq<Fetch>, t: Table, run: seq<Event>, at: seq<nat>, nows: seq<int>, userID: string, role: string)
  {
    && |at| == |walk| && |nows| == |walk|
    && (forall j :: 0 <= j < |walk| ==> at[j] <= |run|)
    && (forall j :: 0 <= j < |walk| ==> walk[j].visible == Visible(Final(t, run[..at[j]]), nows[j], userID, role))
  }

  /** A record nobody deletes stays visible under the same key up to its expiry, however often it is visited. */
  lemma {:induction false} StaysVisible(
    t: Table, run: seq<Event>, code: string, n: nat, now: int, userID: string, role: string)
    requires code in t && Int64.Fits(t[code].data.visits) && Sees(t[code].data, userID, role)
    requires NeverReleased(t, run, code) && n <= |run| && now <= t[code].expiresAt
    requires forall e :: e in run ==> e.now <= t[code].expiresAt
    ensures KeyOf(t[code].data) in KeySet(Visible(Final(t, run[..n]), now, userID, role))
  {
    hide NeverReleased, Final, Hits, Step;
    assert forall e :: e in run[..n] ==> e in run;
    PrefixNeverReleased(t, run, code, n);
    HeldEntry(t, run[..n], code);
    var m := Visible(Final(t, run[..n]), now, userID, role);
    assert code in m && KeyOf(m[code]) == KeyOf(t[code].data);
  }

  /** Every record is filed under its own code, and has a usable key. */
  ghost predicate RegularTable(t: Table) {
    Keyed(t) && forall c :: c in t ==> Usable(KeyOf(t[c].data))
  }

  /** Creations with a nonempty code at an instant other than nanosecond 0 of 1970. */
  predicate UsableCreates(run: seq<Event>) {
    forall e :: e in run && e.op.Create? ==> e.op.code != "" && UnixNano(e.op.data.createdAt) != 0
  }

  lemma {:induction false} StepRegular(t: Table, e: Event)
    requires RegularTable(t) && (e.op.Create? ==> e.op.code != "" && UnixNano(e.op.data.createdAt) != 0)
    ensures RegularTable(Step(t, e.now, e.op).0)
  {
  }

  lemma {:induction false} StaysRegular(t: Table, run: seq<Event>)
    requires RegularTable(t) && UsableCreates(run)
    ensures RegularTable(Final(t, run))
    decreases |run|
  {
    if run != [] {
      assert run[0] in run && forall e :: e in run[1..] ==> e in run;
      StepRegular(t, run[0]);
      hide Step, RegularTable;
      StaysRegular(Step(t, run[0].now, run[0].op).0, run[1..]);
    }
  }

  lemma {:induction false} VisibleRegular(t: Table, now: int, userID: string, role: string)
    requires RegularTable(t)
    ensures Regular(Visible(t, now, userID, role))
  {
  }

  /**
    A walk through a busy store: while any operations run between the requests, a record that the
    caller may see, and that is neither deleted nor expired meanwhile, is returned exactly once.
   */
  lemma {:induction false} WalkDuringRun(
    walk: seq<Fetch>, t: Table, run: seq<Event>, at: seq<nat>, nows: seq<int>, userID: string, role: string, code: string)
    requires Observes(walk, t, run, at, nows, userID, role) && FollowsCursors(walk, "")
    requires RegularTable(t) && UsableCreates(run)
    requires code in t && Int64.Fits(t[code].data.visits) && Sees(t[code].data, userID, role)
    requires NeverReleased(t, run, code)
    requires (forall e :: e in run ==> e.now <= t[code].expiresAt) && forall now :: now in nows ==> now <= t[code].expiresAt
    ensures forall f :: f in walk ==> f.answer.Ok?
    ensures Finished(walk) ==> multiset(Keys(KeyOf, Returned(walk)))[KeyOf(t[code].data)] == 1
  {
    hide NeverReleased, Final, KeySet, Visible, FollowsCursors, KeyOf, Regular, RegularTable;
    forall f | f in walk
      ensures Regular(f.visible) && KeyOf(t[code].data) in KeySet(f.visible)
    {
      var j :| 0 <= j < |walk| && walk[j] == f;
      assert nows[j] in nows;
      StaysVisible(t, run, code, at[j], nows[j], userID, role);
      assert forall e :: e in run[..at[j]] ==> e in run;
      StaysRegular(t, run[..at[j]]);
      VisibleRegular(Final(t, run[..at[j]]), nows[j], userID, role);
    }
    UrlWalkUnderWrites(walk, KeyOf(t[code].data));
  }
}
