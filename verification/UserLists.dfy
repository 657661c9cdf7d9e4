/** Listing users page by page: what a page is, how both stores compute it, and the walk over all pages. */
module UserLists {
  import opened Common
  import opened Orders
  import opened Keyset
  import opened Traversals
  import opened UserTable
  import opened Walks
  import opened Cursors
  import Text
  import UrlService

  datatype UserList<+T> = UserList(items: seq<T>, total: nat, hasMore: bool)

  function NameOf(u: UserRec): string {
    u.username
  }

  /** An empty username asks for the first page. */
  function Position(cursor: UserCursor): Option<string> {
    if cursor.username != "" then Some(cursor.username) else None
  }

  /** The answer to a list request, said without computing one. */
  ghost predicate ListsUsers(t: Users, cursor: Option<string>, limit: nat, r: UserList<UserRec>) {
    && IsPage(Text.Less, t.Keys, cursor, limit, Page(Keys(NameOf, r.items), r.hasMore))
    && (forall u :: u in r.items ==> u.username in t && t[u.username] == u)
    && r.total == |t|
  }

  lemma {:induction false} ListsUsersUnique(
    t: Users, cursor: Option<string>, limit: nat, p: UserList<UserRec>, q: UserList<UserRec>)
    requires ListsUsers(t, cursor, limit, p) && ListsUsers(t, cursor, limit, q)
    ensures p == q
  {
    Text.LessStrictTotal();
    var ps, qs := Keys(NameOf, p.items), Keys(NameOf, q.items);
    PageUnique(Text.Less, t.Keys, cursor, limit, Page(ps, p.hasMore), Page(qs, q.hasMore));
    forall i | 0 <= i < |p.items|
      ensures p.items[i] == q.items[i]
    {
      assert ps[i] == qs[i];
      assert p.items[i] in p.items && q.items[i] in q.items;
    }
  }

  lemma {:induction false} TraversalOfUsers(rows: seq<UserRec>, order: seq<string>, t: Users)
    requires Consistent(t) && Enumerates(rows, order, t)
    ensures Distinct(NameOf, rows)
    ensures forall u :: u in rows <==> u.username in t && t[u.username] == u
  {
    forall i, j | 0 <= i < j < |rows|
      ensures NameOf(rows[i]) != NameOf(rows[j])
    {
      assert order[i] in order && order[j] in order;
    }
    forall u
      ensures u in rows <==> u.username in t && t[u.username] == u
    {
      if u.username in t && t[u.username] == u {
        var i :| 0 <= i < |order| && order[i] == u.username;
        assert rows[i] == u;
      }
      if u in rows {
        var i :| 0 <= i < |rows| && rows[i] == u;
        assert order[i] in order;
      }
    }
  }

  lemma {:induction false} NamesOfRows(rows: seq<UserRec>, t: Users)
    requires Consistent(t) && forall u :: u in rows <==> u.username in t && t[u.username] == u
    ensures forall k :: k in t.Keys <==> k in Keys(NameOf, rows)
  {
    var names := Keys(NameOf, rows);
    forall k
      ensures k in t.Keys <==> k in names
    {
      if k in t {
        assert t[k] in rows;
        var i :| 0 <= i < |rows| && rows[i] == t[k];
        assert names[i] == k;
      }
      if k in names {
        var i :| 0 <= i < |names| && names[i] == k;
        assert rows[i] in rows;
      }
    }
  }

  function SliceUsers(rows: seq<UserRec>, cursor: Option<string>, limit: nat): UserList<UserRec> {
    var p := SlicePage(NameOf, Text.Less, SortBy(NameOf, Text.Less, rows), cursor, limit);
    UserList(p.items, |rows|, p.more)
  }

  /** What PostgreSQL answers: LIMIT limit+1 over the rows, stored in any order. */
  function SqlUsers(rows: seq<UserRec>, cursor: Option<string>, limit: nat): UserList<UserRec> {
    var p := LimitPlusOnePage(NameOf, Text.Less, rows, cursor, limit);
    UserList(p.items, |rows|, p.more)
  }

  lemma {:induction false} SortedUsers(rows: seq<UserRec>, order: seq<string>, t: Users)
    requires Consistent(t) && Enumerates(rows, order, t)
    ensures var sorted := SortBy(NameOf, Text.Less, rows);
            Sorted(NameOf, Text.Less, sorted) && forall u :: u in sorted <==> u.username in t && t[u.username] == u
  {
    TraversalOfUsers(rows, order, t);
    Text.LessStrictTotal();
    SortBySorted(NameOf, Text.Less, rows);
    SameElements(SortBy(NameOf, Text.Less, rows), rows);
  }

  lemma {:induction false} SliceItems(sorted: seq<UserRec>, cursor: Option<string>, limit: nat)
    ensures forall u :: u in SlicePage(NameOf, Text.Less, sorted, cursor, limit).items ==> u in sorted
  {
  }

  /** Sorting and slicing any traversal of the users answers the request. */
  lemma {:induction false} SliceListsUsers(
    rows: seq<UserRec>, order: seq<string>, t: Users, cursor: Option<string>, limit: nat)
    requires Consistent(t) && Enumerates(rows, order, t)
    ensures ListsUsers(t, cursor, limit, SliceUsers(rows, cursor, limit))
  {
    hide Enumerates, Consistent, StrictTotal, SortBy, IsPage, Sorted, Text.Less, FirstAfter;
    var sorted := SortBy(NameOf, Text.Less, rows);
    SortedUsers(rows, order, t);
    NamesOfRows(sorted, t);
    EnumerationLength(rows, order, t);
    Text.LessStrictTotal();
    SliceIsPage(NameOf, Text.Less, sorted, t.Keys, cursor, limit);
    SliceItems(sorted, cursor, limit);
    hide SlicePage;
  }

  /** Both stores give the same page for every cursor, whatever order either holds the users in. */
  lemma {:induction false} UserStoresAgree(
    rows: seq<UserRec>, order: seq<string>, stored: seq<UserRec>, storedOrder: seq<string>,
    t: Users, cursor: Option<string>, limit: nat)
    requires Consistent(t) && Enumerates(rows, order, t) && Enumerates(stored, storedOrder, t)
    ensures SliceUsers(rows, cursor, limit) == SqlUsers(stored, cursor, limit)
    ensures ListsUsers(t, cursor, limit, SqlUsers(stored, cursor, limit))
  {
    hide Enumerates, Consistent, StrictTotal, ListsUsers, SlicePage, LimitPlusOnePage;
    TraversalOfUsers(rows, order, t);
    TraversalOfUsers(stored, storedOrder, t);
    EnumerationLength(rows, order, t);
    EnumerationLength(stored, storedOrder, t);
    Text.LessStrictTotal();
    SliceRefinesLimitPlusOne(NameOf, Text.Less, rows, stored, cursor, limit);
    SliceListsUsers(rows, order, t, cursor, limit);
  }

  // ----- The list endpoint -----

  datatype ServedUsers = ServedUsers(users: seq<UserRec>, nextCursor: string, total: nat, hasMore: bool)

  /** The position a cursor text stands for; Err when the endpoint refuses it. */
  function ReadCursor(cursorText: string): Result<Option<string>, ()> {
    if cursorText == "" then Ok(None)
    else
      match DecodeUserCursor(cursorText)
      case None => Err(())
      case Some(c) => if c.username == "" then Err(()) else Ok(Position(c))
  }

  /** One answer of the endpoint over the users t: the page, and the cursor of its last user when more follow. */
  ghost predicate Serves(t: Users, limit: int, cursorText: string, answer: Result<ServedUsers, ()>) {
    match ReadCursor(cursorText)
    case Err(_) => answer == Err(())
    case Ok(cursor) =>
      && answer.Ok?
      && var a := answer.value;
         && ListsUsers(t, cursor, UrlService.NormalizeLimit(limit), UserList(a.users, a.total, a.hasMore))
         && a.nextCursor ==
            (if a.hasMore && |a.users| > 0 then EncodeUserCursor(UserCursor(a.users[|a.users| - 1].username)) else "")
  }

  /** The text that stands for a position. */
  function TextOf(cursor: Option<string>): string {
    match cursor
    case None => ""
    case Some(name) => EncodeUserCursor(UserCursor(name))
  }

  lemma {:induction false} CursorReads(cursor: Option<string>)
    ensures ReadCursor(TextOf(cursor)) == if cursor == Some("") then Err(()) else Ok(cursor)
  {
    hide EncodeUserCursor, DecodeUserCursor;
    if cursor.Some? {
      UserCursorRoundTrip(UserCursor(cursor.value));
    }
  }

  /** An answer the endpoint can give: from one traversal of the users. */
  ghost function Answer(t: Users, limit: int, cursorText: string): Result<ServedUsers, ()> {
    match ReadCursor(cursorText)
    case Err(_) => Err(())
    case Ok(cursor) =>
      var page := SliceUsers(TraversalRows(t), cursor, UrlService.NormalizeLimit(limit));
      var next := if page.hasMore && |page.items| > 0
        then EncodeUserCursor(UserCursor(page.items[|page.items| - 1].username)) else "";
      Ok(ServedUsers(page.items, next, page.total, page.hasMore))
  }

  lemma {:induction false} AnswerServes(t: Users, limit: int, cursorText: string)
    requires Consistent(t)
    ensures Serves(t, limit, cursorText, Answer(t, limit, cursorText))
  {
    hide SliceUsers, ListsUsers, EncodeUserCursor, ReadCursor, TraversalRows, Consistent;
    match ReadCursor(cursorText)
    case Err(_) =>
    case Ok(cursor) =>
      SliceListsUsers(TraversalRows(t), Traversal(t), t, cursor, UrlService.NormalizeLimit(limit));
  }

  datatype Fetch = Fetch(table: Users, limit: int, cursorText: string, answer: Result<ServedUsers, ()>)

  /** Every request passes the next_cursor of the one before; the users may change arbitrarily in between. */
  ghost predicate FollowsCursors(walk: seq<Fetch>, cursorText: string)
    decreases |walk|
  {
    walk != [] ==>
      var f := walk[0];
      && f.cursorText == cursorText
      && Serves(f.table, f.limit, cursorText, f.answer)
      && (|walk| > 1 ==> f.answer.Ok? && f.answer.value.nextCursor != ""
                         && FollowsCursors(walk[1..], f.answer.value.nextCursor))
  }

  function RequestOf(f: Fetch): Request<string>
    requires f.answer.Ok?
  {
    Request(
      f.table.Keys, UrlService.NormalizeLimit(f.limit),
      Page(Keys(NameOf, f.answer.value.users), f.answer.value.hasMore))
  }

  function Requests(walk: seq<Fetch>): (r: seq<Request<string>>)
    requires forall f :: f in walk ==> f.answer.Ok?
    ensures |r| == |walk|
    ensures forall i :: 0 <= i < |walk| ==> r[i] == RequestOf(walk[i])
  {
    seq(|walk|, i requires 0 <= i < |walk| => RequestOf(walk[i]))
  }

  lemma {:induction false} Served(t: Users, limit: int, text: string, cursor: Option<string>, answer: Result<ServedUsers, ()>)
    requires ReadCursor(text) == Ok(cursor) && Serves(t, limit, text, answer)
    ensures answer.Ok?
    ensures var a := answer.value;
            && IsPage(Text.Less, t.Keys, cursor, UrlService.NormalizeLimit(limit), Page(Keys(NameOf, a.users), a.hasMore))
            && (forall u :: u in a.users ==> u.username in t && t[u.username] == u)
            && (a.hasMore ==> a.users != [] && a.nextCursor == TextOf(Some(a.users[|a.users| - 1].username)))
            && (!a.hasMore ==> a.nextCursor == "")
  {
    hide IsPage, ReadCursor, EncodeUserCursor;
    var a := answer.value;
    assert ListsUsers(t, cursor, UrlService.NormalizeLimit(limit), UserList(a.users, a.total, a.hasMore));
    FullWhenMore(Text.Less, t.Keys, cursor, UrlService.NormalizeLimit(limit), Page(Keys(NameOf, a.users), a.hasMore));
  }

  lemma {:induction false} TextNotEmpty(name: string)
    ensures TextOf(Some(name)) != ""
  {
    UserCursorRoundTrip(UserCursor(name));
  }

  /** One request at a position: served, with a page for it, and a cursor exactly when more follow. */
  lemma {:induction false} FetchIsPage(f: Fetch, cursor: Option<string>)
    requires Serves(f.table, f.limit, TextOf(cursor), f.answer) && cursor != Some("")
    ensures f.answer.Ok?
    ensures IsPage(Text.Less, RequestOf(f).visible, cursor, RequestOf(f).limit, RequestOf(f).page)
    ensures var a := f.answer.value;
            if a.hasMore then
              a.users != [] && a.nextCursor != "" && a.nextCursor == TextOf(Some(a.users[|a.users| - 1].username))
            else a.nextCursor == ""
    ensures forall u :: u in f.answer.value.users ==> u.username in f.table && f.table[u.username] == u
  {
    hide IsPage, TextOf, Serves, ReadCursor;
    CursorReads(cursor);
    Served(f.table, f.limit, TextOf(cursor), cursor, f.answer);
    var a := f.answer.value;
    if a.hasMore {
      TextNotEmpty(a.users[|a.users| - 1].username);
    }
  }

  lemma {:induction false} LastKey(f: Fetch)
    requires f.answer.Ok? && f.answer.value.users != []
    ensures var users, keys := f.answer.value.users, RequestOf(f).page.items;
            |keys| == |users| && keys[|keys| - 1] == users[|users| - 1].username
    ensures RequestOf(f).page.more == f.answer.value.hasMore
  {
  }

  // ----- The empty name -----

  /** The first page is the user with the empty name alone, and more users follow. */
  predicate EndsInEmptyName(f: Fetch) {
    "" in f.table && |f.table| > 1 && UrlService.NormalizeLimit(f.limit) == 1
  }

  lemma {:induction false} TwoMembers(s: set<string>, a: string, b: string)
    requires a in s && b in s && a != b
    ensures |s| > 1
  {
    assert {a, b} <= s && s == {a, b} + (s - {a, b});
    assert |s| == |{a, b}| + |s - {a, b}|;
  }

  lemma {:induction false} OtherMember(s: set<string>, a: string)
    requires a in s && |s| > 1
    ensures exists b :: b in s && b != a
  {
    assert |s - {a}| == |s| - 1;
    var b :| b in s - {a};
  }

  /** A page with more to come ends in the empty name exactly as the first page, of one user, when there is such a user. */
  lemma {:induction false} EmptyNameLast(names: set<string>, cursor: Option<string>, limit: nat, page: Page<string>)
    requires IsPage(Text.Less, names, cursor, limit, page) && limit > 0
    ensures page.more && page.items != [] && page.items[|page.items| - 1] == ""
            <==> cursor == None && "" in names && |names| > 1 && limit == 1
  {
    assert forall s :: !Text.Less(s, "");
    var items := page.items;
    if page.more && items != [] && items[|items| - 1] == "" {
      Has(items, |items| - 1);
      assert |items| > 1 ==> Text.Less(items[0], items[|items| - 1]);
      var k :| k in names && Keyset.After(Text.Less, cursor, k) && k !in items;
      TwoMembers(names, "", k);
    }
    if cursor == None && "" in names && |names| > 1 && limit == 1 {
      Has(items, 0);
      assert "" in items;
      OtherMember(names, "");
      var k :| k in names && k != "";
      assert items == [""] && k !in items;
    }
  }

  /** The endpoint refuses the next_cursor of its own page exactly when that page is the empty name alone. */
  lemma {:induction false} OwnCursorRefused(f: Fetch, cursor: Option<string>)
    requires Serves(f.table, f.limit, TextOf(cursor), f.answer) && cursor != Some("")
    ensures f.answer.Ok?
    ensures f.answer.value.nextCursor != "" && ReadCursor(f.answer.value.nextCursor).Err?
            <==> cursor == None && EndsInEmptyName(f)
  {
    hide IsPage, TextOf, Serves, ReadCursor;
    FetchIsPage(f, cursor);
    EmptyNameLast(f.table.Keys, cursor, RequestOf(f).limit, RequestOf(f).page);
    assert |f.table.Keys| == |f.table|;
    var a := f.answer.value;
    if a.hasMore {
      LastKey(f);
      CursorReads(Some(a.users[|a.users| - 1].username));
    }
  }

  /** It does so after the store has accepted a user with the empty name: with one user a page, there is no second page. */
  lemma {:induction false} EmptyNameRefused(
    hash: string, email: string, id: string, otherID: string, now: int, answer: Result<ServedUsers, ()>)
    requires id != otherID
    requires Serves(Create(Initial(hash, email, id, now), "", Some(hash), email, otherID, now).0, 1, "", answer)
    ensures Create(Initial(hash, email, id, now), "", Some(hash), email, otherID, now).1.Ok?
    ensures answer.Ok? && answer.value.nextCursor != "" && ReadCursor(answer.value.nextCursor).Err?
  {
    var t := Create(Initial(hash, email, id, now), "", Some(hash), email, otherID, now).0;
    assert "" in t && DEFAULT_ADMIN in t;
    TwoMembers(t.Keys, "", DEFAULT_ADMIN);
    assert |t.Keys| == |t| && TextOf(None) == "" && UrlService.NormalizeLimit(1) == 1;
    hide Serves, Create, Initial, ReadCursor;
    OwnCursorRefused(Fetch(t, 1, "", answer), None);
  }

  // ----- Walks -----

  /** The endpoint's walk is a walk of pages in the sense of the pagination theory, and no request is refused. */
  lemma {:induction false} UserWalk(walk: seq<Fetch>, cursor: Option<string>)
    requires FollowsCursors(walk, TextOf(cursor)) && cursor != Some("")
    requires cursor == None && |walk| > 1 ==> !EndsInEmptyName(walk[0])
    ensures forall f :: f in walk ==> f.answer.Ok?
    ensures Follows(Text.Less, cursor, Requests(walk))
    decreases |walk|
  {
    hide Serves, IsPage, TextOf, RequestOf, EndsInEmptyName, ReadCursor;
    if walk != [] {
      var f := walk[0];
      FetchIsPage(f, cursor);
      assert walk == [f] + walk[1..];
      if |walk| > 1 {
        var next := Some(f.answer.value.users[|f.answer.value.users| - 1].username);
        OwnCursorRefused(f, cursor);
        CursorReads(next);
        UserWalk(walk[1..], next);
        assert Requests(walk)[1..] == Requests(walk[1..]);
        LastKey(f);
      } else {
        assert walk[1..] == [];
      }
      hide Follows, FollowsCursors;
      FollowsOn(Text.Less, cursor, Requests(walk));
    }
  }

  /** No request of a walk is refused, except the second one after a first page that is the empty name alone. */
  lemma {:induction false} RefusedExactly(walk: seq<Fetch>)
    requires FollowsCursors(walk, "")
    ensures (forall f :: f in walk ==> f.answer.Ok?) <==> |walk| <= 1 || !EndsInEmptyName(walk[0])
  {
    assert TextOf(None) == "";
    hide EndsInEmptyName, RequestOf, Follows;
    if |walk| <= 1 || !EndsInEmptyName(walk[0]) {
      UserWalk(walk, None);
    } else {
      OwnCursorRefused(walk[0], None);
      assert walk[1] in walk && walk[1..][0] == walk[1];
    }
  }

  /** The last page says that nothing follows. */
  predicate Finished(walk: seq<Fetch>) {
    walk != [] && walk[|walk| - 1].answer.Ok? && walk[|walk| - 1].answer.value.nextCursor == ""
  }

  /** All users returned by the walk, in the order they came. */
  function Returned(walk: seq<Fetch>): seq<UserRec> {
    if walk == [] then [] else (if walk[0].answer.Ok? then walk[0].answer.value.users else []) + Returned(walk[1..])
  }

  lemma {:induction false} ReturnedNames(walk: seq<Fetch>)
    requires forall f :: f in walk ==> f.answer.Ok?
    ensures Collected(Requests(walk)) == Keys(NameOf, Returned(walk))
  {
    hide UrlService.NormalizeLimit;
    if walk != [] {
      assert walk[0] in walk && forall g :: g in walk[1..] ==> g in walk;
      ReturnedNames(walk[1..]);
      assert Requests(walk)[1..] == Requests(walk[1..]);
      assert Keys(NameOf, Returned(walk)) == Keys(NameOf, walk[0].answer.value.users) + Keys(NameOf, Returned(walk[1..]));
    }
  }

  /** Every fetch of a walk stands at a position of its own: none for the first, the last name so far for the others. */
  lemma {:induction false} EachFetch(walk: seq<Fetch>, cursor: Option<string>, f: Fetch)
    requires FollowsCursors(walk, TextOf(cursor)) && cursor != Some("") && f in walk
    requires cursor == None && |walk| > 1 ==> !EndsInEmptyName(walk[0])
    ensures f.answer.Ok? && (f.answer.value.nextCursor == "" <==> !f.answer.value.hasMore)
    ensures forall u :: u in f.answer.value.users ==> u.username in f.table && f.table[u.username] == u
    decreases |walk|
  {
    hide Serves, IsPage, TextOf, RequestOf, EndsInEmptyName, ReadCursor;
    FetchIsPage(walk[0], cursor);
    if f != walk[0] {
      var users := walk[0].answer.value.users;
      OwnCursorRefused(walk[0], cursor);
      CursorReads(Some(users[|users| - 1].username));
      EachFetch(walk[1..], Some(users[|users| - 1].username), f);
    }
  }

  lemma {:induction false} FinishedIsComplete(walk: seq<Fetch>)
    requires FollowsCursors(walk, "") && walk != [] && (|walk| > 1 ==> !EndsInEmptyName(walk[0]))
    requires forall f :: f in walk ==> f.answer.Ok?
    ensures Finished(walk) <==> Complete(Requests(walk))
  {
    assert TextOf(None) == "";
    hide FollowsCursors, EndsInEmptyName, Keys, NameOf, UrlService.NormalizeLimit;
    EachFetch(walk, None, walk[|walk| - 1]);
    assert Requests(walk)[|walk| - 1] == RequestOf(walk[|walk| - 1]);
  }

  lemma {:induction false} EachRequest(walk: seq<Fetch>, r: Request<string>)
    requires forall f :: f in walk ==> f.answer.Ok?
    requires r in Requests(walk)
    ensures exists f :: f in walk && r == RequestOf(f)
  {
    var i :| 0 <= i < |walk| && Requests(walk)[i] == r;
    assert walk[i] in walk;
  }

  /** Names strictly advance, and a user present throughout a finished walk comes exactly once. */
  lemma {:induction false} UserWalkUnderWrites(walk: seq<Fetch>, name: string)
    requires FollowsCursors(walk, "") && (|walk| > 1 ==> !EndsInEmptyName(walk[0]))
    ensures forall f :: f in walk ==> f.answer.Ok?
    ensures Ascending(Text.Less, Keys(NameOf, Returned(walk)))
    ensures Finished(walk) && (forall f :: f in walk ==> name in f.table) ==>
      multiset(Keys(NameOf, Returned(walk)))[name] == 1
  {
    assert TextOf(None) == "";
    hide FollowsCursors, Follows, Collected, EndsInEmptyName;
    UserWalk(walk, None);
    ReturnedNames(walk);
    Text.LessStrictTotal();
    var requests := Requests(walk);
    WalkAdvances(Text.Less, None, requests);
    if Finished(walk) && forall f :: f in walk ==> name in f.table {
      forall r | r in requests
        ensures name in r.visible
      {
        EachRequest(walk, r);
      }
      FinishedIsComplete(walk);
      WalkUnderWrites(Text.Less, requests, name);
    }
  }

  /** All requests see the same users and ask for the same limit. */
  predicate Static(walk: seq<Fetch>, t: Users, limit: int) {
    forall f :: f in walk ==> f.table == t && f.limit == limit
  }

  /** More than one user, one of them with the empty name, and one user a page. */
  predicate Stuck(t: Users, limit: int) {
    "" in t && |t| > 1 && UrlService.NormalizeLimit(limit) == 1
  }

  lemma {:induction false} NotStuck(walk: seq<Fetch>, t: Users, limit: int)
    requires Static(walk, t, limit) && walk != [] && !Stuck(t, limit)
    ensures !EndsInEmptyName(walk[0])
  {
    assert walk[0] in walk;
  }

  lemma {:induction false} StaticEnds(walk: seq<Fetch>, t: Users, limit: int)
    requires FollowsCursors(walk, "") && walk != [] && Static(walk, t, limit) && !Stuck(t, limit)
    ensures forall f :: f in walk ==> f.answer.Ok?
    ensures forall r :: r in Requests(walk) ==> r.visible == t.Keys && r.limit == UrlService.NormalizeLimit(limit)
    ensures |walk| <= Pages(|t|, UrlService.NormalizeLimit(limit))
    ensures Finished(walk) <==> |walk| == Pages(|t|, UrlService.NormalizeLimit(limit))
  {
    assert TextOf(None) == "" && |t.Keys| == |t|;
    NotStuck(walk, t, limit);
    hide FollowsCursors, Follows, EndsInEmptyName, Stuck, Pages, UrlService.NormalizeLimit, Finished;
    UserWalk(walk, None);
    FinishedIsComplete(walk);
    Text.LessStrictTotal();
    forall r | r in Requests(walk)
      ensures r.visible == t.Keys && r.limit == UrlService.NormalizeLimit(limit)
    {
      EachRequest(walk, r);
    }
    StaticWalkEnds(Text.Less, Requests(walk), t.Keys, UrlService.NormalizeLimit(limit));
  }

  lemma {:induction false} ReturnedAreStored(walk: seq<Fetch>, t: Users, whole: seq<Fetch>)
    requires FollowsCursors(whole, "") && (|whole| > 1 ==> !EndsInEmptyName(whole[0]))
    requires forall f :: f in walk ==> f in whole && f.table == t
    ensures forall u :: u in Returned(walk) ==> u.username in t && t[u.username] == u
    decreases |walk|
  {
    hide FollowsCursors, EndsInEmptyName, Consistent;
    if walk != [] {
      assert TextOf(None) == "" && walk[0] in walk;
      EachFetch(whole, None, walk[0]);
      ReturnedAreStored(walk[1..], t, whole);
    }
  }

  lemma {:induction false} SameNamesSameUsers(s: seq<UserRec>, r: seq<UserRec>, t: Users)
    requires Keys(NameOf, s) == Keys(NameOf, r)
    requires forall u :: u in s || u in r ==> u.username in t && t[u.username] == u
    ensures s == r
  {
    assert |s| == |Keys(NameOf, s)| == |r|;
    forall i | 0 <= i < |s|
      ensures s[i] == r[i]
    {
      assert Keys(NameOf, s)[i] == s[i].username && Keys(NameOf, r)[i] == r[i].username;
      assert s[i] in s && r[i] in r;
    }
  }

  lemma {:induction false} AscendingNames(all: seq<UserRec>)
    requires Sorted(NameOf, Text.Less, all)
    ensures Ascending(Text.Less, Keys(NameOf, all))
  {
  }

  /**
    On unchanged users, unless stuck at the empty name, following next_cursor is finished after exactly
    max(1, ceil(n / limit)) pages, no sooner and no later, and has then returned all users by name.
   */
  lemma {:induction false} UserStaticWalk(walk: seq<Fetch>, t: Users, limit: int, all: seq<UserRec>)
    requires FollowsCursors(walk, "") && walk != [] && Static(walk, t, limit) && !Stuck(t, limit) && Consistent(t)
    requires Sorted(NameOf, Text.Less, all) && forall u :: u in all <==> u.username in t && t[u.username] == u
    ensures forall f :: f in walk ==> f.answer.Ok?
    ensures |walk| <= Pages(|t|, UrlService.NormalizeLimit(limit))
    ensures Finished(walk) <==> |walk| == Pages(|t|, UrlService.NormalizeLimit(limit))
    ensures Finished(walk) ==> Returned(walk) == all
  {
    assert TextOf(None) == "" && forall f :: f in walk ==> f.table == t;
    NotStuck(walk, t, limit);
    NamesOfRows(all, t);
    AscendingNames(all);
    hide *;
    StaticEnds(walk, t, limit);
    if Finished(walk) {
      UserWalk(walk, None);
      FinishedIsComplete(walk);
      ReturnedNames(walk);
      Text.LessStrictTotal();
      StaticWalk(Text.Less, Requests(walk), Keys(NameOf, all));
      ReturnedAreStored(walk, t, walk);
      SameNamesSameUsers(Returned(walk), all, t);
    }
  }

  /** One more request with the cursor the last one left. */
  lemma {:induction false} OneMoreFetch(walk: seq<Fetch>, text: string, f: Fetch)
    requires FollowsCursors(walk, text) && walk != []
    requires walk[|walk| - 1].answer.Ok? && walk[|walk| - 1].answer.value.nextCursor == f.cursorText != ""
    requires Serves(f.table, f.limit, f.cursorText, f.answer)
    ensures FollowsCursors(walk + [f], text)
    decreases |walk|
  {
    hide Serves;
    if |walk| == 1 {
      assert (walk + [f])[1..] == [f] && [f][1..] == [];
    } else {
      OneMoreFetch(walk[1..], walk[0].answer.value.nextCursor, f);
      assert (walk + [f])[1..] == walk[1..] + [f];
    }
  }

  /** ... and an unfinished walk can go on, so every walk reaches its end. */
  lemma {:induction false} UserWalkEnds(walk: seq<Fetch>, t: Users, limit: int) returns (whole: seq<Fetch>)
    requires FollowsCursors(walk, "") && Static(walk, t, limit) && !Stuck(t, limit) && Consistent(t)
    ensures FollowsCursors(whole, "") && Static(whole, t, limit) && Finished(whole) && walk <= whole
    decreases Pages(|t|, UrlService.NormalizeLimit(limit)) - |walk|
  {
    hide Serves, UrlService.NormalizeLimit, Pages, Consistent, Stuck, Answer;
    if walk == [] {
      AnswerServes(t, limit, "");
      var first := [Fetch(t, limit, "", Answer(t, limit, ""))];
      assert first[1..] == [];
      hide FollowsCursors;
      StaticEnds(first, t, limit);
      whole := UserWalkEnds(first, t, limit);
    } else {
      StaticEnds(walk, t, limit);
      var last := walk[|walk| - 1];
      assert last in walk;
      if Finished(walk) {
        whole := walk;
      } else {
        var text := last.answer.value.nextCursor;
        AnswerServes(t, limit, text);
        var f := Fetch(t, limit, text, Answer(t, limit, text));
        OneMoreFetch(walk, "", f);
        hide FollowsCursors;
        StaticEnds(walk + [f], t, limit);
        whole := UserWalkEnds(walk + [f], t, limit);
      }
    }
  }
}
