/** Whole runs of the URL store: any sequence of operations at any non-decreasing instants. */
module UrlRuns {
  import opened Common
  import opened UrlTable
  import Int64

  datatype StoreError = KeyNotFound | KeyExists

  datatype Op =
    | Create(code: string, data: UrlData)            // SetIfAbsent, as CreateShortURL calls it
    | Lookup(code: string)                           // Get
    | Info(code: string, userID: string, role: string)   // GetURLInfo
    | Visit(code: string)                            // GetAndIncrement
    | Remove(code: string, userID: string, role: string) // DeleteURL, at one instant
    | RawDelete(code: string)                        // Delete
    | ListAll(userID: string, role: string)          // GetAllFor
    | ListPage(userID: string, role: string, cursor: Option<UrlCursor>, limit: nat) // ListURLs
    | Stats(userID: string, role: string)            // StatsFor
    | Cleanup                                        // one tick of cleanupExpired

  datatype Answer =
    | Stored
    | Refused(error: StoreError)
    | Found(data: UrlData)
    | Removed
    | Forbidden
    | All(visible: map<string, UrlData>)             // in whatever order the map is traversed
    | Listed(list: UrlList)
    | Totals(urls: nat, visits: int)
    | Swept

  // ----- Single operations -----

  function SetIfAbsent(t: Table, now: int, code: string, data: UrlData): (Table, Result<(), StoreError>) {
    if code in t && Active(t[code], now) then (t, Err(KeyExists))
    else (t[code := Entry(data, data.expiresAt)], Ok(()))
  }

  function Get(t: Table, now: int, code: string): Result<UrlData, StoreError> {
    if code !in t || !Active(t[code], now) then Err(KeyNotFound) else Ok(t[code].data)
  }

  function Delete(t: Table, code: string): (Table, Result<(), StoreError>) {
    if code !in t then (t, Err(KeyNotFound)) else (t - {code}, Ok(()))
  }

  function Visited(e: Entry): Entry {
    e.(data := e.data.(visits := Int64.Wrap(e.data.visits + 1)))
  }

  function GetAndIncrement(t: Table, now: int, code: string): (Table, Result<UrlData, StoreError>) {
    if code !in t || !Active(t[code], now) then (t, Err(KeyNotFound))
    else
      var e := Visited(t[code]);
      (t[code := e], Ok(e.data))
  }

  /** What is left after the expired entries go. */
  function Live(t: Table, now: int): Table {
    map c | c in t && Active(t[c], now) :: t[c]
  }

  function GetURLInfo(t: Table, now: int, code: string, userID: string, role: string): Result<UrlData, StoreError> {
    match Get(t, now, code)
    case Err(e) => Err(e)
    case Ok(data) => if Sees(data, userID, role) then Ok(data) else Err(KeyNotFound)
  }

  function DeleteURL(t: Table, now: int, code: string, userID: string, role: string): (Table, Answer) {
    match Get(t, now, code)
    case Err(e) => (t, Refused(e))
    case Ok(data) =>
      if !Sees(data, userID, role) then (t, Forbidden)
      else
        var (t', r) := Delete(t, code);
        (t', match r case Ok(_) => Removed case Err(e) => Refused(e))
  }

  /** The number of records, and their visits added up in int64. */
  ghost function TotalsOf(m: map<string, UrlData>): Answer {
    Totals(|m|, Int64.Wrap(SumVisits(m)))
  }

  ghost function Step(t: Table, now: int, op: Op): (Table, Answer) {
    match op
    case Create(code, data) =>
      var (t', r) := SetIfAbsent(t, now, code, data.(shortCode := code));
      (t', match r case Ok(_) => Stored case Err(e) => Refused(e))
    case Lookup(code) => (t, match Get(t, now, code) case Ok(d) => Found(d) case Err(e) => Refused(e))
    case Info(code, userID, role) =>
      (t, match GetURLInfo(t, now, code, userID, role) case Ok(d) => Found(d) case Err(e) => Refused(e))
    case Visit(code) =>
      var (t', r) := GetAndIncrement(t, now, code);
      (t', match r case Ok(d) => Found(d) case Err(e) => Refused(e))
    case Remove(code, userID, role) => DeleteURL(t, now, code, userID, role)
    case RawDelete(code) =>
      var (t', r) := Delete(t, code);
      (t', match r case Ok(_) => Removed case Err(e) => Refused(e))
    case ListAll(userID, role) => (t, All(Visible(t, now, userID, role)))
    case ListPage(userID, role, cursor, limit) => (t, Listed(PageAt(Visible(t, now, userID, role), cursor, limit)))
    case Stats(userID, role) => (t, TotalsOf(Visible(t, now, userID, role)))
    case Cleanup => (Live(t, now), Swept)
  }

  // ----- What each operation means -----

  /** A lookup finds exactly the stored record of an unexpired code. */
  lemma {:induction false} LookupExactly(t: Table, now: int, code: string)
    ensures var r := Get(t, now, code);
            if code in t && now <= t[code].expiresAt then r == Ok(t[code].data) else r == Err(KeyNotFound)
  {
  }

  /** A reservation succeeds exactly on an absent or expired code; it files what it is given and touches nothing else. */
  lemma {:induction false} ReserveExactly(t: Table, now: int, code: string, data: UrlData)
    ensures var (t', r) := SetIfAbsent(t, now, code, data);
            && (r.Ok? <==> code !in t || t[code].expiresAt < now)
            && (r.Ok? ==> code in t' && t'[code].data == data && t'[code].expiresAt == data.expiresAt)
            && (r.Err? ==> r.error == KeyExists && t' == t)
            && t'.Keys <= t.Keys + {code} && forall c :: c in t && c != code ==> c in t' && t'[c] == t[c]
  {
  }

  /** A visit counts one on exactly the unexpired code it is for, and changes nothing else of it or of others. */
  lemma {:induction false} VisitExactly(t: Table, now: int, code: string)
    ensures var (t', r) := GetAndIncrement(t, now, code);
            if code in t && now <= t[code].expiresAt then
              && t'.Keys == t.Keys && (forall c :: c in t && c != code ==> t'[c] == t[c])
              && t'[code].expiresAt == t[code].expiresAt
              && t'[code].data == t[code].data.(visits := Int64.Wrap(t[code].data.visits + 1))
              && r == Ok(t'[code].data)
            else t' == t && r == Err(KeyNotFound)
  {
  }

  /** The sweep drops exactly what has expired. */
  lemma {:induction false} SweepExactly(t: Table, now: int, c: string)
    ensures c in Live(t, now) <==> c in t && now <= t[c].expiresAt
    ensures c in Live(t, now) ==> Live(t, now)[c] == t[c]
  {
  }

  /** Info is given on exactly the unexpired records of the caller, and on all of them to an administrator. */
  lemma {:induction false} InfoExactly(t: Table, now: int, code: string, userID: string, role: string)
    ensures var r := GetURLInfo(t, now, code, userID, role);
            if code in t && now <= t[code].expiresAt && (role == "admin" || t[code].data.createdBy == userID)
            then r == Ok(t[code].data) else r == Err(KeyNotFound)
  {
  }

  /** The bare deletion removes a code that is there, expired or not, and no other. */
  lemma {:induction false} DeleteExactly(t: Table, code: string)
    ensures var (t', r) := Delete(t, code);
            && (r == Ok(()) <==> code in t) && (r.Err? ==> r.error == KeyNotFound)
            && code !in t' && t'.Keys <= t.Keys && forall c :: c in t && c != code ==> c in t' && t'[c] == t[c]
  {
  }

  /**
    A deletion removes exactly an unexpired record of the caller, or any for an administrator. It is
    forbidden on the unexpired records of others and finds nothing else; then nothing changes.
   */
  lemma {:induction false} DeleteURLExactly(t: Table, now: int, code: string, userID: string, role: string)
    ensures var (t', answer) := DeleteURL(t, now, code, userID, role);
            var found := code in t && now <= t[code].expiresAt;
            var allowed := found && (role == "admin" || t[code].data.createdBy == userID);
            && answer == (if allowed then Removed else if found then Forbidden else Refused(KeyNotFound))
            && (allowed ==> code !in t' && t'.Keys <= t.Keys && forall c :: c in t && c != code ==> c in t' && t'[c] == t[c])
            && (!allowed ==> t' == t)
  {
  }

  // ----- Runs -----

  datatype Event = Event(now: int, op: Op)

  predicate Monotone(from: int, run: seq<Event>)
    decreases |run|
  {
    run != [] ==> from <= run[0].now && Monotone(run[0].now, run[1..])
  }

  ghost function Final(t: Table, run: seq<Event>): Table
    decreases |run|
  {
    if run == [] then t else Final(Step(t, run[0].now, run[0].op).0, run[1..])
  }

  /** The answers callers get; the background sweep answers nobody. */
  ghost function Answers(t: Table, run: seq<Event>): seq<Answer>
    decreases |run|
  {
    if run == [] then []
    else
      var (t', a) := Step(t, run[0].now, run[0].op);
      (if run[0].op.Cleanup? then [] else [a]) + Answers(t', run[1..])
  }

  function WithoutCleanup(run: seq<Event>): seq<Event> {
    if run == [] then []
    else (if run[0].op.Cleanup? then [] else [run[0]]) + WithoutCleanup(run[1..])
  }

  // ----- Cleanup is invisible -----

  lemma {:induction false} LiveLater(t: Table, now: int, later: int)
    requires now <= later
    ensures Live(Live(t, now), later) == Live(t, later)
  {
  }

  lemma {:induction false} VisibleIsLive(t: Table, now: int, userID: string, role: string)
    ensures Visible(t, now, userID, role) == Visible(Live(t, now), now, userID, role)
  {
  }

  lemma {:induction false} LiveUpdate(t: Table, u: Table, now: int, code: string, e: Entry)
    requires Live(t, now) == Live(u, now)
    ensures Live(t[code := e], now) == Live(u[code := e], now)
  {
    var a, b := Live(t[code := e], now), Live(u[code := e], now);
    forall c
      ensures c in a <==> c in b
      ensures c in a ==> a[c] == b[c]
    {
      assert c in Live(t, now) <==> c in Live(u, now);
    }
  }

  lemma {:induction false} LiveRemove(t: Table, u: Table, now: int, code: string)
    requires Live(t, now) == Live(u, now)
    ensures Live(t - {code}, now) == Live(u - {code}, now)
  {
    assert Live(t - {code}, now) == Live(t, now) - {code};
    assert Live(u - {code}, now) == Live(u, now) - {code};
  }

  /** Tables with the same live entries answer alike and stay that way. */
  lemma {:induction false} StepSeesOnlyLive(t: Table, u: Table, now: int, op: Op)
    requires Live(t, now) == Live(u, now) && !op.RawDelete?
    ensures Step(t, now, op).1 == Step(u, now, op).1
    ensures Live(Step(t, now, op).0, now) == Live(Step(u, now, op).0, now)
  {
    assert forall c :: c in Live(t, now) <==> c in t && Active(t[c], now);
    assert forall c :: c in Live(u, now) <==> c in u && Active(u[c], now);
    match op
    case ListAll(userID, role) => VisibleIsLive(t, now, userID, role); VisibleIsLive(u, now, userID, role);
    case ListPage(userID, role, _, _) => VisibleIsLive(t, now, userID, role); VisibleIsLive(u, now, userID, role);
    case Stats(userID, role) => VisibleIsLive(t, now, userID, role); VisibleIsLive(u, now, userID, role);
    case Cleanup => LiveLater(t, now, now); LiveLater(u, now, now);
    case Create(code, data) => LiveUpdate(t, u, now, code, Entry(data.(shortCode := code), data.expiresAt));
    case Visit(code) => if code in Live(t, now) { LiveUpdate(t, u, now, code, Visited(t[code])); }
    case Remove(code, _, _) => LiveRemove(t, u, now, code);
    case _ =>
  }

  lemma {:induction false} CleanupSimulation(t: Table, u: Table, from: int, run: seq<Event>)
    requires Live(t, from) == Live(u, from) && Monotone(from, run)
    requires forall e :: e in run ==> !e.op.RawDelete?
    ensures Answers(t, run) == Answers(u, WithoutCleanup(run))
    decreases |run|
  {
    if run != [] {
      var now, op := run[0].now, run[0].op;
      LiveLater(t, from, now);
      LiveLater(u, from, now);
      var t' := Step(t, now, op).0;
      assert forall e :: e in run[1..] ==> e in run;
      if op.Cleanup? {
        LiveLater(t, now, now);
        CleanupSimulation(t', u, now, run[1..]);
        assert WithoutCleanup(run) == WithoutCleanup(run[1..]);
      } else {
        assert run[0] in run;
        StepSeesOnlyLive(t, u, now, op);
        CleanupSimulation(t', Step(u, now, op).0, now, run[1..]);
        assert WithoutCleanup(run) == [run[0]] + WithoutCleanup(run[1..]);
      }
    }
  }

  /** Runs that differ only in where the sweep ran give their callers the same answers. */
  lemma {:induction false} CleanupIsInvisible(t: Table, from: int, run: seq<Event>, other: seq<Event>)
    requires Monotone(from, run) && Monotone(from, other)
    requires forall e :: e in run || e in other ==> !e.op.RawDelete?
    requires WithoutCleanup(run) == WithoutCleanup(other)
    ensures Answers(t, run) == Answers(t, other)
  {
    CleanupSimulation(t, t, from, run);
    CleanupSimulation(t, t, from, other);
  }

  /** The bare Delete does not check expiry, so it notices a sweep exactly on an expired entry. */
  lemma {:induction false} DeleteNoticesSweep(t: Table, now: int, code: string)
    ensures Step(t, now, RawDelete(code)).1 == Step(Live(t, now), now, RawDelete(code)).1
            <==> (code in t ==> Active(t[code], now))
  {
  }

  // ----- Reservations and visits -----

  ghost predicate Succeeds(t: Table, e: Event) {
    var a := Step(t, e.now, e.op).1;
    !a.Refused? && !a.Forbidden?
  }

  /** e takes the code away from whoever holds it. */
  ghost predicate Releases(t: Table, e: Event, code: string) {
    Succeeds(t, e) && (e.op.Remove? || e.op.RawDelete?) && e.op.code == code
  }

  ghost predicate NeverReleased(t: Table, run: seq<Event>, code: string)
    decreases |run|
  {
    run != [] ==> !Releases(t, run[0], code) && NeverReleased(Step(t, run[0].now, run[0].op).0, run[1..], code)
  }

  ghost predicate NeverRecreated(t: Table, run: seq<Event>, code: string)
    decreases |run|
  {
    run != [] ==>
      && !(run[0].op.Create? && run[0].op.code == code && Succeeds(t, run[0]))
      && NeverRecreated(Step(t, run[0].now, run[0].op).0, run[1..], code)
  }

  /** Successful visits to the code during the run. */
  ghost function Hits(t: Table, run: seq<Event>, code: string): nat
    decreases |run|
  {
    if run == [] then 0
    else
      (if run[0].op == Visit(code) && Succeeds(t, run[0]) then 1 else 0)
      + Hits(Step(t, run[0].now, run[0].op).0, run[1..], code)
  }

  function WithVisits(e: Entry, n: nat): Entry {
    e.(data := e.data.(visits := Int64.Wrap(e.data.visits + n)))
  }

  lemma {:induction false} WithVisitsCompose(e: Entry, m: nat, n: nat)
    ensures WithVisits(WithVisits(e, m), n) == WithVisits(e, m + n)
  {
    Int64.WrapAdd(e.data.visits + m, n);
  }

  lemma {:induction false} StepOnCode(t: Table, e: Event, code: string)
    requires code in t
    requires !(e.op.Create? && e.op.code == code && Succeeds(t, e))
    ensures var t' := Step(t, e.now, e.op).0;
            code in t' ==>
              t'[code] == (if e.op == Visit(code) && Succeeds(t, e) then Visited(t[code]) else t[code])
    ensures Active(t[code], e.now) && !Releases(t, e, code) ==> code in Step(t, e.now, e.op).0
  {
  }

  lemma {:induction false} StaysAbsent(t: Table, run: seq<Event>, code: string)
    requires code !in t && NeverRecreated(t, run, code)
    ensures code !in Final(t, run)
    decreases |run|
  {
    if run != [] {
      StaysAbsent(Step(t, run[0].now, run[0].op).0, run[1..], code);
    }
  }

  /** A stored record changes only by counting successful visits, until it is gone or replaced. */
  lemma {:induction false} VisitsConserved(t: Table, run: seq<Event>, code: string)
    requires code in t && NeverRecreated(t, run, code) && Int64.Fits(t[code].data.visits)
    ensures code in Final(t, run) ==> Final(t, run)[code] == WithVisits(t[code], Hits(t, run, code))
    decreases |run|
  {
    if run != [] {
      var t' := Step(t, run[0].now, run[0].op).0;
      StepOnCode(t, run[0], code);
      if code in t' {
        VisitsConserved(t', run[1..], code);
        if t'[code] != t[code] || (run[0].op == Visit(code) && Succeeds(t, run[0])) {
          WithVisitsCompose(t[code], 1, Hits(t', run[1..], code));
        }
      } else {
        StaysAbsent(t', run[1..], code);
      }
    }
  }

  /** A reserved code stays reserved, and cannot be won again, while unexpired and not deleted. */
  lemma {:induction false} ReservationHeld(t: Table, run: seq<Event>, code: string)
    requires code in t && NeverReleased(t, run, code)
    requires forall e :: e in run ==> e.now <= t[code].expiresAt
    ensures NeverRecreated(t, run, code) && code in Final(t, run)
    ensures Final(t, run)[code].expiresAt == t[code].expiresAt
    decreases |run|
  {
    if run != [] {
      assert run[0] in run;
      StepOnCode(t, run[0], code);
      assert forall e :: e in run[1..] ==> e in run;
      ReservationHeld(Step(t, run[0].now, run[0].op).0, run[1..], code);
    }
  }

  lemma {:induction false} PrefixNeverReleased(t: Table, run: seq<Event>, code: string, n: nat)
    requires n <= |run| && NeverReleased(t, run, code)
    ensures NeverReleased(t, run[..n], code)
    decreases |run|
  {
    if n > 0 {
      PrefixNeverReleased(Step(t, run[0].now, run[0].op).0, run[1..], code, n - 1);
      assert run[..n][1..] == run[1..][..n - 1];
    }
  }

  lemma {:induction false} HeldEntry(t: Table, run: seq<Event>, code: string)
    requires code in t && Int64.Fits(t[code].data.visits) && NeverReleased(t, run, code)
    requires forall e :: e in run ==> e.now <= t[code].expiresAt
    ensures code in Final(t, run) && Final(t, run)[code] == WithVisits(t[code], Hits(t, run, code))
  {
    ReservationHeld(t, run, code);
    VisitsConserved(t, run, code);
  }

  lemma {:induction false} HeldAnswers(t: Table, e: Event, code: string)
    requires code in t && e.now <= t[code].expiresAt
    ensures var answer := Step(t, e.now, e.op).1;
            && (e.op == Lookup(code) ==> answer == Found(t[code].data))
            && (e.op == Visit(code) ==> answer == Found(Visited(t[code]).data))
            && (e.op.Create? && e.op.code == code ==> answer == Refused(KeyExists))
  {
  }

  /**
    At every point of any run up to the stored expiry, as long as nobody deletes the code:
    a lookup or a visit returns the record with exactly the visits made so far, and no
    other create wins the code.
   */
  lemma {:induction false} HeldThroughout(t: Table, code: string, run: seq<Event>, i: nat)
    requires code in t && Int64.Fits(t[code].data.visits) && NeverReleased(t, run, code)
    requires forall e :: e in run ==> e.now <= t[code].expiresAt
    requires i < |run|
    ensures var hits := Hits(t, run[..i], code);
            var answer := Step(Final(t, run[..i]), run[i].now, run[i].op).1;
            && (run[i].op == Lookup(code) ==> answer == Found(WithVisits(t[code], hits).data))
            && (run[i].op == Visit(code) ==> answer == Found(WithVisits(t[code], hits + 1).data))
            && (run[i].op.Create? && run[i].op.code == code ==> answer == Refused(KeyExists))
  {
    hide Step, Hits, NeverReleased, Final, Int64.Wrap;
    assert forall e :: e in run[..i] ==> e in run;
    PrefixNeverReleased(t, run, code, i);
    HeldEntry(t, run[..i], code);
    assert run[i] in run;
    WithVisitsCompose(t[code], Hits(t, run[..i], code), 1);
    HeldAnswers(Final(t, run[..i]), run[i], code);
  }

  /** A successful create files exactly the URL, owner and expiry it was given; a refused one changes nothing. */
  lemma {:induction false} CreateOutcome(t: Table, e: Event)
    requires e.op.Create?
    ensures var (t', answer) := Step(t, e.now, e.op);
            && (answer == Stored <==> e.op.code !in t || e.now > t[e.op.code].expiresAt)
            && (answer == Stored ==> t' == t[e.op.code := Entry(e.op.data.(shortCode := e.op.code), e.op.data.expiresAt)])
            && (answer != Stored ==> answer == Refused(KeyExists) && t' == t)
  {
  }

  /** The two together: safety of a reservation from the create that won it. */
  lemma {:induction false} ReservationSafety(t: Table, create: Event, t1: Table, run: seq<Event>, i: nat)
    requires create.op.Create? && Succeeds(t, create) && t1 == Step(t, create.now, create.op).0
    requires Int64.Fits(create.op.data.visits) && NeverReleased(t1, run, create.op.code)
    requires forall e :: e in run ==> e.now <= create.op.data.expiresAt
    requires i < |run|
    ensures var code, data := create.op.code, create.op.data.(shortCode := create.op.code);
            var hits := Hits(t1, run[..i], code);
            var answer := Step(Final(t1, run[..i]), run[i].now, run[i].op).1;
            && (run[i].op == Lookup(code) ==> answer == Found(data.(visits := Int64.Wrap(data.visits + hits))))
            && (run[i].op == Visit(code) ==> answer == Found(data.(visits := Int64.Wrap(data.visits + hits + 1))))
            && (run[i].op.Create? && run[i].op.code == code ==> answer == Refused(KeyExists))
  {
    hide Step, Hits, NeverReleased, Final, Int64.Wrap;
    CreateOutcome(t, create);
    HeldThroughout(t1, create.op.code, run, i);
  }

  /** Whoever wins a held code at some later point needed a deletion or the expiry first. */
  lemma {:induction false} WinNeedsRelease(t: Table, run: seq<Event>, code: string)
    requires code in t && !NeverRecreated(t, run, code)
    ensures !NeverReleased(t, run, code) || exists e :: e in run && e.now > t[code].expiresAt
  {
    if NeverReleased(t, run, code) && forall e :: e in run ==> e.now <= t[code].expiresAt {
      ReservationHeld(t, run, code);
    }
  }

  lemma {:induction false} PrefixNeverRecreated(t: Table, run: seq<Event>, code: string, n: nat)
    requires n <= |run| && NeverRecreated(t, run, code)
    ensures NeverRecreated(t, run[..n], code)
    decreases |run|
  {
    if n > 0 {
      PrefixNeverRecreated(Step(t, run[0].now, run[0].op).0, run[1..], code, n - 1);
      assert run[..n][1..] == run[1..][..n - 1];
    }
  }

  lemma {:induction false} AbsentAnswers(t: Table, e: Event, code: string)
    requires code !in t
    ensures var answer := Step(t, e.now, e.op).1;
            && (e.op == Lookup(code) || e.op == Visit(code) ==> answer == Refused(KeyNotFound))
            && ((e.op.Info? || e.op.Remove? || e.op.RawDelete?) && e.op.code == code ==> answer == Refused(KeyNotFound))
            && (e.op.ListAll? ==> code !in answer.visible)
  {
  }

  /** After a successful deletion nobody finds the code, at any later point of any run, until it is created again. */
  lemma {:induction false} GoneUntilRecreated(t: Table, deletion: Event, t1: Table, run: seq<Event>, code: string, i: nat)
    requires deletion.op.Remove? && deletion.op.code == code
    requires Step(t, deletion.now, deletion.op) == (t1, Removed)
    requires NeverRecreated(t1, run, code) && i < |run|
    ensures var answer := Step(Final(t1, run[..i]), run[i].now, run[i].op).1;
            && (run[i].op == Lookup(code) || run[i].op == Visit(code) ==> answer == Refused(KeyNotFound))
            && ((run[i].op.Info? || run[i].op.Remove? || run[i].op.RawDelete?) && run[i].op.code == code ==>
                answer == Refused(KeyNotFound))
            && (run[i].op.ListAll? ==> code !in answer.visible)
  {
    DeleteURLExactly(t, deletion.now, code, deletion.op.userID, deletion.op.role);
    hide Step, Final, NeverRecreated, DeleteURL;
    PrefixNeverRecreated(t1, run, code, i);
    StaysAbsent(t1, run[..i], code);
    AbsentAnswers(Final(t1, run[..i]), run[i], code);
  }

  lemma {:induction false} OneMoreVisit(others: int, visits: int)
    ensures Int64.Wrap(Int64.Wrap(visits + 1) + others) == Int64.Wrap(Int64.Wrap(visits + others) + 1)
  {
    Int64.WrapAdd(visits + 1, others);
    Int64.WrapAdd(visits + others, 1);
  }

  lemma {:induction false} VisitedTotals(m: map<string, UrlData>, code: string)
    requires code in m
    ensures var m' := m[code := m[code].(visits := Int64.Wrap(m[code].visits + 1))];
            |m'| == |m| && Int64.Wrap(SumVisits(m')) == Int64.Wrap(Int64.Wrap(SumVisits(m)) + 1)
  {
    var m' := m[code := m[code].(visits := Int64.Wrap(m[code].visits + 1))];
    assert m'.Keys == m.Keys && |m.Keys| == |m| && |m'.Keys| == |m'|;
    assert m' - {code} == m - {code};
    hide SumVisits, Int64.Wrap;
    SumVisitsRemove(m, code);
    SumVisitsRemove(m', code);
    OneMoreVisit(SumVisits(m - {code}), m[code].visits);
  }

  lemma {:induction false} VisitShows(t: Table, now: int, code: string, userID: string, role: string)
    requires code in t && now <= t[code].expiresAt && (role == "admin" || t[code].data.createdBy == userID)
    ensures var m := Visible(t, now, userID, role);
            code in m && Visible(Step(t, now, Visit(code)).0, now, userID, role)
                         == m[code := m[code].(visits := Int64.Wrap(m[code].visits + 1))]
  {
  }

  /** A successful visit raises the owner's and the administrators' visit total by one, and nobody's number of URLs. */
  lemma {:induction false} VisitShowsInStats(t: Table, now: int, code: string, userID: string, role: string)
    requires code in t && now <= t[code].expiresAt && (role == "admin" || t[code].data.createdBy == userID)
    ensures var before := Step(t, now, Stats(userID, role)).1;
            Step(Step(t, now, Visit(code)).0, now, Stats(userID, role)).1
            == Totals(before.urls, Int64.Wrap(before.visits + 1))
  {
    VisitShows(t, now, code, userID, role);
    VisitedTotals(Visible(t, now, userID, role), code);
    var t' := Step(t, now, Visit(code)).0;
    assert Step(t', now, Stats(userID, role)).1 == TotalsOf(Visible(t', now, userID, role));
    hide Visible, SumVisits, Int64.Wrap, GetAndIncrement;
  }

  // ----- Isolation between callers -----

  /** A non-administrator's answers depend on nothing but that caller's own active records. */
  lemma {:induction false} OwnRecordsDecide(t: Table, u: Table, now: int, userID: string, role: string, op: Op)
    requires role != ROLE_ADMIN && Visible(t, now, userID, role) == Visible(u, now, userID, role)
    requires
      || op == ListAll(userID, role)
      || op == Stats(userID, role)
      || (op.ListPage? && op.userID == userID && op.role == role)
      || (op.Info? && op.userID == userID && op.role == role)
    ensures Step(t, now, op).1 == Step(u, now, op).1
  {
    if op.Info? {
      var m, n := Visible(t, now, userID, role), Visible(u, now, userID, role);
      assert op.code in m <==> op.code in n;
      assert op.code in m <==> op.code in t && Active(t[op.code], now) && Sees(t[op.code].data, userID, role);
      assert op.code in n <==> op.code in u && Active(u[op.code], now) && Sees(u[op.code].data, userID, role);
    }
  }

  /** An operation of somebody else: it creates for, deletes as, or visits a record of, another owner. */
  ghost predicate Foreign(t: Table, e: Event, userID: string) {
    match e.op
    case Create(_, data) => data.createdBy != userID
    case Remove(_, other, role) => other != userID && role != ROLE_ADMIN
    case Visit(code) => code in t ==> t[code].data.createdBy != userID
    case RawDelete(_) => false
    case _ => true
  }

  ghost predicate AllForeign(t: Table, run: seq<Event>, userID: string)
    decreases |run|
  {
    run != [] ==> Foreign(t, run[0], userID) && AllForeign(Step(t, run[0].now, run[0].op).0, run[1..], userID)
  }

  lemma {:induction false} ForeignStep(t: Table, e: Event, userID: string, role: string, later: int)
    requires role != ROLE_ADMIN && Foreign(t, e, userID) && e.now <= later
    ensures Visible(Step(t, e.now, e.op).0, later, userID, role) == Visible(t, later, userID, role)
  {
    var t' := Step(t, e.now, e.op).0;
    var m, n := Visible(t', later, userID, role), Visible(t, later, userID, role);
    forall c
      ensures c in m <==> c in n
      ensures c in m ==> m[c] == n[c]
    {
      if c in t && c in t' && t[c] != t'[c] {
        assert t'[c].data.createdBy != userID;
      }
    }
  }

  /**
    Whatever other users create, list, visit or delete, and however often the sweep runs,
    a caller's visible records afterwards are the ones it would have seen without them.
   */
  lemma {:induction false} OthersAreInvisible(
    t: Table, from: int, run: seq<Event>, userID: string, role: string, later: int)
    requires role != ROLE_ADMIN && AllForeign(t, run, userID) && Monotone(from, run)
    requires forall e :: e in run ==> e.now <= later
    ensures Visible(Final(t, run), later, userID, role) == Visible(t, later, userID, role)
    decreases |run|
  {
    if run != [] {
      assert run[0] in run && forall e :: e in run[1..] ==> e in run;
      ForeignStep(t, run[0], userID, role, later);
      OthersAreInvisible(Step(t, run[0].now, run[0].op).0, run[0].now, run[1..], userID, role, later);
    }
  }

  // ----- Agreement of the reading operations -----

  /** For one caller and instant, the three ways of counting agree, and pages list records filed under their codes. */
  lemma {:induction false} CountsAgree(
    t: Table, now: int, userID: string, role: string, cursor: Option<UrlCursor>, limit: nat)
    requires Keyed(t)
    ensures var all := Step(t, now, ListAll(userID, role)).1;
            var page := Step(t, now, ListPage(userID, role, cursor, limit)).1;
            var stats := Step(t, now, Stats(userID, role)).1;
            |all.visible| == page.list.total == stats.urls && ListsPage(all.visible, cursor, limit, page.list)
  {
  }

  lemma {:induction false} StaysKeyed(t: Table, run: seq<Event>)
    requires Keyed(t)
    ensures Keyed(Final(t, run))
    decreases |run|
  {
    if run != [] {
      StaysKeyed(Step(t, run[0].now, run[0].op).0, run[1..]);
    }
  }
}
