/** The URL service: code allocation, ownership checks and cursor pages on top of the store. */
module UrlService {
  import opened Common
  import opened Orders
  import opened Traversals
  import opened UrlTable
  import opened UrlRuns
  import opened Cursors
  import opened Storage
  import Int64

  const DEFAULT_EXPIRES_IN := "24h"
  const DAY: int := 24 * 3600 * 1_000_000_000
  const MAX_ATTEMPTS: nat := 100
  const DEFAULT_PAGE_LIMIT: nat := 50
  const MAX_PAGE_LIMIT: nat := 200

  datatype ServiceError = InvalidURL | CodeTaken | NoFreeCode | URLNotFound | InvalidCursor

  datatype ShortenRequest = ShortenRequest(url: string, expiresIn: string, customCode: string)

  datatype ShortenResponse = ShortenResponse(
    id: string, shortURL: string, shortCode: string, originalURL: string, expiresIn: string, expiresAt: int, createdAt: int)

  /** What url.Parse reports about a URL; parsing itself is not part of this model. */
  datatype ParsedURL = ParsedURL(scheme: string, host: string)

  datatype UrlPage = UrlPage(urls: seq<UrlData>, nextCursor: string, total: nat, hasMore: bool)

  function NormalizeLimit(limit: int): (r: nat)
    ensures 1 <= r <= 200
    ensures 1 <= limit <= 200 ==> r == limit
    ensures limit > 200 ==> r == 200
    ensures limit <= 0 ==> r == 50
  {
    if limit <= 0 then DEFAULT_PAGE_LIMIT
    else if limit > MAX_PAGE_LIMIT then MAX_PAGE_LIMIT
    else limit
  }

  predicate ValidURL(url: string, parsed: Option<ParsedURL>) {
    url != "" && parsed.Some? && parsed.value.host != ""
    && (parsed.value.scheme == "http" || parsed.value.scheme == "https")
  }

  /** The first attempt whose code is not active at its own instant; the number of attempts if none. */
  ghost function FirstFree(t: Table, codes: seq<string>, at: seq<int>): (i: nat)
    requires |codes| == |at|
    ensures i <= |codes|
    ensures forall j :: 0 <= j < i ==> codes[j] in t && Active(t[codes[j]], at[j])
    ensures i < |codes| ==> !(codes[i] in t && Active(t[codes[i]], at[i]))
  {
    if codes == [] || !(codes[0] in t && Active(t[codes[0]], at[0])) then 0
    else 1 + FirstFree(t, codes[1..], at[1..])
  }

  function NextCursor(list: UrlList): string {
    if list.hasMore && list.items != [] then EncodeUrlCursor(KeyOf(list.items[|list.items| - 1])) else ""
  }

  /** The cursor a text stands for; None when the service refuses it. */
  function ReadCursor(cursorText: string): Option<UrlCursor> {
    if cursorText == "" then Some(UrlCursor(0, ""))
    else
      var cursor := DecodeUrlCursor(cursorText);
      if cursor.Some? && cursor.value.createdAtUnixNano != 0 && cursor.value.shortCode != "" then cursor else None
  }

  function PageOf(list: UrlList): UrlPage {
    UrlPage(list.items, NextCursor(list), list.total, list.hasMore)
  }

  /** What ListURLs answers from some traversal of the visible records. */
  ghost predicate ServedFrom(m: map<string, UrlData>, limit: int, cursorText: string, r: Result<UrlPage, ServiceError>) {
    match ReadCursor(cursorText)
    case None => r == Err(InvalidCursor)
    case Some(cursor) => exists list :: ListedFrom(m, cursor, NormalizeLimit(limit), list) && r == Ok(PageOf(list))
  }

  /** What it answers as a function of the visible records, when they are filed under their own codes. */
  ghost function ServePage(m: map<string, UrlData>, limit: int, cursorText: string): Result<UrlPage, ServiceError> {
    match ReadCursor(cursorText)
    case None => Err(InvalidCursor)
    case Some(cursor) => Ok(PageOf(PageAt(m, Position(cursor), NormalizeLimit(limit))))
  }

  lemma {:induction false} AllSorted(rows: seq<UrlData>, order: seq<string>, m: map<string, UrlData>)
    requires KeyedRows(m) && Enumerates(rows, order, m)
    ensures Sorted(KeyOf, Before, SortByKey(rows))
    ensures forall u :: u in SortByKey(rows) <==> u.shortCode in m && m[u.shortCode] == u
  {
    BeforeStrictTotal();
    EnumerationDistinct(rows, order, m);
    SortBySorted(KeyOf, Before, rows);
    SameElements(SortByKey(rows), rows);
  }

  class URLService {
    const storage: Store
    const ttlOptions: map<string, int>
    const baseURL: string

    constructor (storage: Store, ttlOptions: map<string, int>, baseURL: string)
      ensures this.storage == storage && this.ttlOptions == ttlOptions && this.baseURL == baseURL
    {
      this.storage, this.ttlOptions, this.baseURL := storage, ttlOptions, baseURL;
    }

    function NewRecord(req: ShortenRequest, userID: string, now: int, id: string, code: string): UrlData {
      var duration := if req.expiresIn in ttlOptions then ttlOptions[req.expiresIn] else DAY;
      var display := if req.expiresIn == "" then DEFAULT_EXPIRES_IN else req.expiresIn;
      UrlData(id, code, req.url, display, now + duration, now, userID, 0)
    }

    /**
      now is read once for the record; at[i] is the clock inside the store's i-th attempt and
      generated[i] the i-th random code, the last one longer than the others.
     */
    method CreateShortURL(
      req: ShortenRequest, userID: string, parsed: Option<ParsedURL>, now: int, id: string,
      generated: seq<string>, at: seq<int>) returns (r: Result<ShortenResponse, ServiceError>)
      requires storage.Valid() && |generated| == |at| == 100
      requires forall i :: 0 <= i < 100 ==> |generated[i]| == if i == 99 then 10 else 6
      modifies storage
      ensures storage.Valid()
      ensures r.Err? ==> storage.Contents() == old(storage.Contents())
      ensures r.Ok? ==>
        var code := r.value.shortCode;
        var duration := if req.expiresIn in ttlOptions then ttlOptions[req.expiresIn] else 86_400_000_000_000;
        var display := if req.expiresIn == "" then "24h" else req.expiresIn;
        var data := UrlData(id, code, req.url, display, now + duration, now, userID, 0);
        && storage.Contents() == old(storage.Contents())[code := Entry(data, data.expiresAt)]
        && r.value == ShortenResponse(id, baseURL + "/r/" + code, code, req.url, data.expiresIn, data.expiresAt, now)
      ensures r == Err(InvalidURL) <==>
        req.url == "" || parsed.None? || parsed.value.host == ""
        || (parsed.value.scheme != "http" && parsed.value.scheme != "https")
      ensures ValidURL(req.url, parsed) && req.customCode != "" ==>
        var taken := old(req.customCode in storage.Contents() && Active(storage.Contents()[req.customCode], at[0]));
        (taken ==> r == Err(CodeTaken)) && (!taken ==> r.Ok? && r.value.shortCode == req.customCode)
      ensures ValidURL(req.url, parsed) && req.customCode == "" ==>
        var i := old(FirstFree(storage.Contents(), generated, at));
        (i == 100 ==> r == Err(NoFreeCode)) && (i < 100 ==> r.Ok? && r.value.shortCode == generated[i])
    {
      if req.url == "" {
        return Err(InvalidURL);
      }
      if parsed.None? || parsed.value.host == "" || (parsed.value.scheme != "http" && parsed.value.scheme != "https") {
        return Err(InvalidURL);
      }
      var shortCode := "";
      var urlData := NewRecord(req, userID, now, id, shortCode);
      if req.customCode != "" {
        shortCode := req.customCode;
        urlData := urlData.(shortCode := shortCode);
        var stored := storage.SetIfAbsent(at[0], shortCode, urlData);
        if stored.Err? {
          return Err(CodeTaken);
        }
      } else {
        ghost var t := storage.Contents();
        for i := 0 to MAX_ATTEMPTS
          invariant storage.Valid() && storage.Contents() == t && shortCode == ""
          invariant urlData.(shortCode := "") == NewRecord(req, userID, now, id, "")
          invariant forall j :: 0 <= j < i ==> generated[j] in t && Active(t[generated[j]], at[j])
        {
          shortCode := generated[i];
          urlData := urlData.(shortCode := shortCode);
          var stored := storage.SetIfAbsent(at[i], shortCode, urlData);
          if stored.Ok? {
            break;
          }
          shortCode := "";
        }
        if shortCode == "" {
          return Err(NoFreeCode);
        }
      }
      return Ok(ShortenResponse(
        urlData.id, baseURL + "/r/" + shortCode, shortCode, req.url, urlData.expiresIn, urlData.expiresAt, now));
    }

    method GetOriginalURL(now: int, shortCode: string) returns (r: Result<string, ServiceError>)
      requires storage.Valid()
      modifies storage.data.Values
      ensures storage.Valid()
      ensures var (t', visited) := old(UrlRuns.GetAndIncrement(storage.Contents(), now, shortCode));
              && storage.Contents() == t'
              && r == match visited case Ok(data) => Ok(data.originalURL) case Err(_) => Err(URLNotFound)
    {
      var visited := storage.GetAndIncrement(now, shortCode);
      match visited
      case Err(_) => return Err(URLNotFound);
      case Ok(data) => return Ok(data.originalURL);
    }

    method GetURLInfo(now: int, shortCode: string, userID: string, role: string)
      returns (r: Result<UrlData, ServiceError>)
      ensures r == match UrlRuns.GetURLInfo(storage.Contents(), now, shortCode, userID, role)
                   case Ok(data) => Ok(data) case Err(_) => Err(URLNotFound)
    {
      var found := storage.Get(now, shortCode);
      if found.Err? {
        return Err(URLNotFound);
      }
      if role != ROLE_ADMIN && found.value.createdBy != userID {
        return Err(URLNotFound);
      }
      return Ok(found.value);
    }

    method DeleteURL(now: int, shortCode: string, userID: string, role: string) returns (r: Answer)
      requires storage.Valid()
      modifies storage
      ensures storage.Valid()
      ensures (storage.Contents(), r) == old(UrlRuns.DeleteURL(storage.Contents(), now, shortCode, userID, role))
      ensures r == Removed ==> shortCode in old(storage.Contents()) && shortCode !in storage.Contents()
    {
      var found := storage.Get(now, shortCode);
      if found.Err? {
        return Refused(found.error);
      }
      if role != ROLE_ADMIN && found.value.createdBy != userID {
        return Forbidden;
      }
      var deleted := storage.Delete(shortCode);
      return match deleted case Ok(_) => Removed case Err(e) => Refused(e);
    }

    /** Every visible record once, newest first. */
    method GetAllURLs(now: int, userID: string, role: string) returns (urls: seq<UrlData>)
      ensures var m := Visible(storage.Contents(), now, userID, role);
              exists rows, order :: Enumerates(rows, order, m) && urls == SortByKey(rows)
      ensures var m := Visible(storage.Contents(), now, userID, role);
              KeyedRows(m) ==>
                && Sorted(KeyOf, Before, urls) && NewestFirst(urls)
                && forall u :: u in urls <==> u.shortCode in m && m[u.shortCode] == u
    {
      var rows, order := storage.GetAllFor(now, userID, role);
      urls := SortByKey(rows);
      hide Enumerates, SortByKey, KeyedRows, Visible;
      if KeyedRows(Visible(storage.Contents(), now, userID, role)) {
        AllSorted(rows, order, Visible(storage.Contents(), now, userID, role));
        SortedIsNewestFirst(urls);
      }
    }

    method ListURLs(now: int, userID: string, role: string, limit: int, cursorText: string)
      returns (r: Result<UrlPage, ServiceError>)
      ensures ServedFrom(Visible(storage.Contents(), now, userID, role), limit, cursorText, r)
      ensures KeyedRows(Visible(storage.Contents(), now, userID, role)) ==>
        r == ServePage(Visible(storage.Contents(), now, userID, role), limit, cursorText)
        && (r.Ok? ==> NewestFirst(r.value.urls))
    {
      hide PageAt, Visible, KeyedRows, DecodeUrlCursor, EncodeUrlCursor, NormalizeLimit, Position, ListedFrom;
      var normalized := NormalizeLimit(limit);
      var cursor := UrlCursor(0, "");
      if cursorText != "" {
        var decoded := DecodeUrlCursor(cursorText);
        if decoded.None? {
          return Err(InvalidCursor);
        }
        cursor := decoded.value;
        if cursor.createdAtUnixNano == 0 || cursor.shortCode == "" {
          return Err(InvalidCursor);
        }
      }
      var res := storage.ListURLs(now, userID, role, cursor, normalized);
      var next := "";
      if res.hasMore && |res.items| > 0 {
        var last := res.items[|res.items| - 1];
        next := EncodeUrlCursor(UrlCursor(UnixNano(last.createdAt), last.shortCode));
      }
      return Ok(UrlPage(res.items, next, res.total, res.hasMore));
    }
  }

  // ----- Creation among other callers -----

  /** One attempt to reserve a code: what others did to the store before it, the store's clock in it, and the code. */
  datatype Attempt = Attempt(others: seq<Event>, now: int, code: string)

  /** The attempts of one CreateShortURL, each a store call of its own, up to the first that succeeds. */
  ghost function Allocate(t: Table, attempts: seq<Attempt>, data: UrlData): (Table, Option<string>)
    decreases |attempts|
  {
    if attempts == [] then (t, None)
    else
      var a := attempts[0];
      var (t', r) := UrlRuns.SetIfAbsent(Final(t, a.others), a.now, a.code, data.(shortCode := a.code));
      if r.Ok? then (t', Some(a.code)) else Allocate(t', attempts[1..], data)
  }

  /** Everything others did before attempt n. */
  function OthersBefore(attempts: seq<Attempt>, n: nat): seq<Event>
    requires n <= |attempts|
  {
    if n == 0 then [] else attempts[0].others + OthersBefore(attempts[1..], n - 1)
  }

  /** The store as attempt n finds it when all before it failed: no failed attempt leaves a trace. */
  ghost function StoreAt(t: Table, attempts: seq<Attempt>, n: nat): Table
    requires n < |attempts|
  {
    Final(t, OthersBefore(attempts, n + 1))
  }

  ghost predicate TakenAt(t: Table, attempts: seq<Attempt>, n: nat)
    requires n < |attempts|
  {
    var found := StoreAt(t, attempts, n);
    attempts[n].code in found && Active(found[attempts[n].code], attempts[n].now)
  }

  lemma {:induction false} FinalConcat(t: Table, a: seq<Event>, b: seq<Event>)
    ensures Final(t, a + b) == Final(Final(t, a), b)
    decreases |a|
  {
    if a == [] {
      assert a + b == b;
    } else {
      assert (a + b)[0] == a[0] && (a + b)[1..] == a[1..] + b;
      FinalConcat(Step(t, a[0].now, a[0].op).0, a[1..], b);
    }
  }

  lemma {:induction false} FoundLater(t: Table, attempts: seq<Attempt>, n: nat)
    requires 0 < n < |attempts|
    ensures StoreAt(t, attempts, n) == StoreAt(Final(t, attempts[0].others), attempts[1..], n - 1)
  {
    FinalConcat(t, attempts[0].others, OthersBefore(attempts[1..], n));
  }

  lemma {:induction false} NoEvents(t: Table)
    ensures Final(t, []) == t
  {
  }

  /**
    Creation among other callers, who may do anything between the attempts. The first attempt wins
    whose code is not active in the store of that moment, and files exactly the record; if none
    wins, every code was active when it was tried, and the store is as the others left it.
   */
  lemma {:induction false} AllocatesFirstFree(t: Table, attempts: seq<Attempt>, data: UrlData) returns (k: nat)
    ensures k <= |attempts| && forall j :: 0 <= j < k ==> TakenAt(t, attempts, j)
    ensures k < |attempts| ==>
      var code := attempts[k].code;
      !TakenAt(t, attempts, k)
      && Allocate(t, attempts, data)
         == (StoreAt(t, attempts, k)[code := Entry(data.(shortCode := code), data.expiresAt)], Some(code))
    ensures k == |attempts| ==> Allocate(t, attempts, data) == (Final(t, OthersBefore(attempts, k)), None)
    decreases |attempts|
  {
    hide Final;
    k := 0;
    if attempts == [] {
      NoEvents(t);
    } else {
      var t1 := Final(t, attempts[0].others);
      assert StoreAt(t, attempts, 0) == t1 by { assert OthersBefore(attempts, 1) == attempts[0].others; }
      if TakenAt(t, attempts, 0) {
        var rest := AllocatesFirstFree(t1, attempts[1..], data);
        k := rest + 1;
        forall j | 0 < j < k
          ensures TakenAt(t, attempts, j)
        {
          FoundLater(t, attempts, j);
          assert TakenAt(t1, attempts[1..], j - 1);
        }
        if k < |attempts| {
          FoundLater(t, attempts, k);
        } else {
          FinalConcat(t, attempts[0].others, OthersBefore(attempts[1..], rest));
        }
      }
    }
  }

  /** Attempts between which nobody else does anything. */
  function Undisturbed(codes: seq<string>, at: seq<int>): seq<Attempt>
    requires |codes| == |at|
  {
    if codes == [] then [] else [Attempt([], at[0], codes[0])] + Undisturbed(codes[1..], at[1..])
  }

  /** Undisturbed, this is what CreateShortURL promises of its loop. */
  lemma {:induction false} UndisturbedAllocation(t: Table, codes: seq<string>, at: seq<int>, data: UrlData)
    requires |codes| == |at|
    ensures var i := FirstFree(t, codes, at);
            Allocate(t, Undisturbed(codes, at), data)
            == if i == |codes| then (t, None)
               else (t[codes[i] := Entry(data.(shortCode := codes[i]), data.expiresAt)], Some(codes[i]))
    decreases |codes|
  {
    if codes != [] {
      var attempts := Undisturbed(codes, at);
      assert attempts[0] == Attempt([], at[0], codes[0]) && attempts[1..] == Undisturbed(codes[1..], at[1..]);
      NoEvents(t);
      hide Final;
      UndisturbedAllocation(t, codes[1..], at[1..], data);
    }
  }

  /** What a creation won is what everybody finds from then on, up to the expiry and unless the code is deleted. */
  lemma {:induction false} CreatedIsHeld(
    t: Table, attempts: seq<Attempt>, data: UrlData, code: string, run: seq<Event>, i: nat)
    requires Allocate(t, attempts, data).1 == Some(code) && data.visits == 0
    requires NeverReleased(Allocate(t, attempts, data).0, run, code) && i < |run|
    requires forall e :: e in run ==> e.now <= data.expiresAt
    ensures var t1 := Allocate(t, attempts, data).0;
            var hits := Hits(t1, run[..i], code);
            var answer := Step(Final(t1, run[..i]), run[i].now, run[i].op).1;
            && (run[i].op == Lookup(code) ==> answer == Found(data.(shortCode := code, visits := Int64.Wrap(hits))))
            && (run[i].op == Visit(code) ==> answer == Found(data.(shortCode := code, visits := Int64.Wrap(hits + 1))))
            && (run[i].op.Create? && run[i].op.code == code ==> answer == Refused(KeyExists))
  {
    hide Step, Hits, NeverReleased, Final, Int64.Wrap, StoreAt, TakenAt;
    var k := AllocatesFirstFree(t, attempts, data);
    hide Allocate;
    HeldThroughout(Allocate(t, attempts, data).0, code, run, i);
  }
}
