/** The fixed-window rate limiter and its bounded table. */
module RateLimiter {
  import opened Common
  import opened Durations
  import Int64

  /** Instants and durations are in nanoseconds; the zero time is the first instant of year 1. */
  const ZERO_TIME: int := -62_135_596_800 * SECOND
  const TABLE_BOUND: nat := 10_000

  datatype RateWindow = RateWindow(start: int, count: int)

  type Entries = map<string, RateWindow>

  datatype Decision = Decision(exceeded: bool, remaining: int, retryAfter: int)

  /** time.Time.Sub saturates at the ends of int64. */
  function Sub(t: int, u: int): (d: int)
    ensures Int64.Fits(t - u) ==> d == t - u
    ensures t - u > Int64.MAX ==> d == Int64.MAX
    ensures t - u < Int64.MIN ==> d == Int64.MIN
  {
    var d := t - u;
    if d > Int64.MAX then Int64.MAX else if d < Int64.MIN then Int64.MIN else d
  }

  /** The caller's window after counting one request at now. */
  function Counted(t: Entries, key: string, now: int, window: int): RateWindow {
    var stored := if key in t then t[key] else RateWindow(ZERO_TIME, 0);
    var entry := if stored.start == ZERO_TIME || Sub(now, stored.start) >= window then RateWindow(now, 0) else stored;
    entry.(count := entry.count + 1)
  }

  /** Retry-After is at least a second, less than a second short of the time left, and otherwise no longer than it. */
  function RetryAfter(left: int): (r: int)
    ensures 1 <= r && left < (r + 1) * SECOND
    ensures left >= SECOND ==> r * SECOND <= left
  {
    var seconds := TruncDiv(left, SECOND);
    if seconds < 1 then 1 else seconds
  }

  function Decide(entry: RateWindow, now: int, limit: int, window: int): Decision {
    var remaining := if limit - entry.count < 0 then 0 else limit - entry.count;
    Decision(entry.count > limit, remaining, RetryAfter(window - Sub(now, entry.start)))
  }

  /** What the seconds announced mean for the time that is left: at least one, and otherwise rounded down. */
  predicate Announces(seconds: int, left: int) {
    && 1 <= seconds && left < (seconds + 1) * 1_000_000_000
    && (left >= 1_000_000_000 ==> seconds * 1_000_000_000 <= left)
  }

  /** While the key's window runs, the request is one more in it, and is told what is left of it and when it ends. */
  lemma {:induction false} DecisionInWindow(t: Entries, key: string, now: int, limit: int, window: int)
    requires 0 < window <= Int64.MAX
    requires key in t && ZERO_TIME < t[key].start <= now < t[key].start + window
    ensures var entry := Counted(t, key, now, window);
            var d, count := Decide(entry, now, limit, window), t[key].count + 1;
            && entry.start == t[key].start && entry.count == count
            && (d.exceeded <==> count > limit) && d.remaining == (if count > limit then 0 else limit - count)
            && Announces(d.retryAfter, t[key].start + window - now)
  {
  }

  /** Without one, or after its end, a new window starts now and the request is the first in it. */
  lemma {:induction false} DecisionAnew(t: Entries, key: string, now: int, limit: int, window: int)
    requires 0 < window <= Int64.MAX && ZERO_TIME < now
    requires key in t ==> t[key].start == ZERO_TIME || t[key].start + window <= now
    ensures var entry := Counted(t, key, now, window);
            var d := Decide(entry, now, limit, window);
            && entry.start == now && entry.count == 1
            && (d.exceeded <==> limit < 1) && d.remaining == (if limit < 1 then 0 else limit - 1)
            && Announces(d.retryAfter, window)
  {
  }

  function Unexpired(t: Entries, now: int, window: int): Entries {
    map k | k in t && !(Sub(now, t[k].start) >= window) :: t[k]
  }

  /** The keys whose windows started less than a window ago. */
  function Fresh(t: Entries, now: int, window: int): set<string> {
    set k | k in t && t[k].start + window > now
  }

  lemma {:induction false} FreshIsUnexpired(t: Entries, now: int, window: int)
    requires 0 < window <= Int64.MAX
    ensures Fresh(t, now, window) == Unexpired(t, now, window).Keys
    ensures |Fresh(t, now, window)| == |Unexpired(t, now, window)|
  {
    assert |Unexpired(t, now, window).Keys| == |Unexpired(t, now, window)|;
  }

  /**
    What eviction may leave: everything while the table is small; else what the sweep with the
    calling route's window keeps; and if that is still too much, any part of it of the bound's size.
   */
  ghost predicate Evicted(t: Entries, now: int, window: int, after: Entries) {
    if |t| <= TABLE_BOUND then after == t
    else
      var swept := Unexpired(t, now, window);
      if |swept| <= TABLE_BOUND then after == swept
      else |after| == TABLE_BOUND && forall k :: k in after ==> k in swept && after[k] == swept[k]
  }

  /**
    What eviction does. A table of at most 10,000 windows stays as it is. A larger one loses every window
    that started a whole window ago, and keeps all others if those are at most 10,000; it always ends
    with at most 10,000, none of them new or changed.
   */
  lemma {:induction false} EvictedExactly(t: Entries, now: int, window: int, after: Entries, k: string)
    requires Evicted(t, now, window, after) && 0 < window <= Int64.MAX && k in t && t[k].start <= now
    ensures |after| <= 10_000
    ensures k in after ==> after[k] == t[k]
    ensures |t| <= 10_000 ==> k in after
    ensures |t| > 10_000 && t[k].start + window <= now ==> k !in after
    ensures |t| > 10_000 && t[k].start + window > now && |Fresh(t, now, window)| <= 10_000 ==> k in after
  {
    FreshIsUnexpired(t, now, window);
  }

  lemma {:induction false} SmallTableIsKept(t: Entries, now: int, window: int)
    requires |t| <= TABLE_BOUND
    ensures Evicted(t, now, window, t)
  {
  }

  lemma {:induction false} ShrinkByOne(t: Entries, key: string)
    requires key in t
    ensures |t - {key}| == |t| - 1
  {
    assert (t - {key}).Keys == t.Keys - {key};
    assert |t.Keys| == |t| && |(t - {key}).Keys| == |t - {key}|;
  }

  class Limiter {
    var entries: Entries

    constructor ()
      ensures entries == map[]
    {
      entries := map[];
    }

    method Limit(keyScope: string, clientIP: string, now: int, limit: int, window: int) returns (d: Decision)
      modifies this
      ensures var key := keyScope + ":" + clientIP;
              var entry := Counted(old(entries), key, now, window);
              && d == Decide(entry, now, limit, window)
              && Evicted(old(entries)[key := entry], now, window, entries)
      ensures |entries| <= 10_000
    {
      hide Evicted, Unexpired;
      var key := keyScope + ":" + clientIP;
      var entry := if key in entries then entries[key] else RateWindow(ZERO_TIME, 0);
      if entry.start == ZERO_TIME || Sub(now, entry.start) >= window {
        entry := RateWindow(now, 0);
      }
      entry := entry.(count := entry.count + 1);
      entries := entries[key := entry];
      var remaining := limit - entry.count;
      if remaining < 0 {
        remaining := 0;
      }
      var retryAfter := TruncDiv(window - Sub(now, entry.start), SECOND);
      if retryAfter < 1 {
        retryAfter := 1;
      }
      if |entries| > TABLE_BOUND {
        Evict(now, window);
      } else {
        SmallTableIsKept(entries, now, window);
      }
      return Decision(entry.count > limit, remaining, retryAfter);
    }

    /** The sweep of expired windows, then the removal of arbitrary keys down to the bound. */
    method Evict(now: int, window: int)
      requires |entries| > TABLE_BOUND
      modifies this
      ensures Evicted(old(entries), now, window, entries)
      ensures |entries| <= TABLE_BOUND
    {
      var todo := entries.Keys;
      while todo != {}
        invariant todo <= old(entries).Keys
        invariant forall k :: k in entries <==> k in old(entries) && (k in todo || !(Sub(now, old(entries)[k].start) >= window))
        invariant forall k :: k in entries ==> entries[k] == old(entries)[k]
        decreases |todo|
      {
        var storedKey :| storedKey in todo;
        if Sub(now, entries[storedKey].start) >= window {
          entries := entries - {storedKey};
        }
        todo := todo - {storedKey};
      }
      ghost var swept := Unexpired(old(entries), now, window);
      assert entries == swept;
      while |entries| > TABLE_BOUND
        invariant forall k :: k in entries ==> k in swept && entries[k] == swept[k]
        invariant |swept| <= TABLE_BOUND ==> entries == swept
        invariant |swept| > TABLE_BOUND ==> |entries| >= TABLE_BOUND
        decreases |entries|
      {
        assert entries != map[];
        var storedKey :| storedKey in entries;
        ShrinkByOne(entries, storedKey);
        entries := entries - {storedKey};
      }
    }
  }

  // ----- Runs -----

  /** One request of any client on any route, and the table its eviction happened to leave. */
  datatype Request = Request(now: int, key: string, limit: int, window: int, after: Entries)

  ghost predicate Trace(t: Entries, run: seq<Request>)
    decreases |run|
  {
    run != [] ==>
      var r := run[0];
      Evicted(t[r.key := Counted(t, r.key, r.now, r.window)], r.now, r.window, r.after) && Trace(r.after, run[1..])
  }

  /** The clock never runs backwards and is past the zero time. */
  predicate Clocked(from: int, run: seq<Request>)
    decreases |run|
  {
    ZERO_TIME < from && (run != [] ==> from <= run[0].now && Clocked(run[0].now, run[1..]))
  }

  /** Every request under the key comes through the same route. */
  predicate OneRoute(run: seq<Request>, key: string, limit: int, window: int) {
    forall r :: r in run && r.key == key ==> r.limit == limit && r.window == window
  }

  predicate IsAdmitted(t: Entries, r: Request) {
    !Decide(Counted(t, r.key, r.now, r.window), r.now, r.limit, r.window).exceeded
  }

  /** 1 if the request is one under the key that is admitted, else 0. */
  function Own(t: Entries, r: Request, key: string): nat {
    if r.key == key && IsAdmitted(t, r) then 1 else 0
  }

  /** 1 if the request pushes the key's window out of the table, else 0. */
  function Lost(t: Entries, r: Request, key: string): (n: nat)
    ensures n <= 1
  {
    if (key in t || r.key == key) && key !in r.after then 1 else 0
  }

  /** Requests under the key admitted in the half-open interval [a, b). */
  function Admitted(t: Entries, run: seq<Request>, key: string, a: int, b: int): nat
    decreases |run|
  {
    if run == [] then 0
    else
      (if a <= run[0].now < b then Own(t, run[0], key) else 0)
      + Admitted(run[0].after, run[1..], key, a, b)
  }

  /** How often a request in [a, b) pushed the key's window out of the table. */
  function Evictions(t: Entries, run: seq<Request>, key: string, a: int, b: int): nat
    decreases |run|
  {
    if run == [] then 0
    else
      (if a <= run[0].now < b then Lost(t, run[0], key) else 0)
      + Evictions(run[0].after, run[1..], key, a, b)
  }

  /** How many window starts, each a window after the one before, fit into [t, b). */
  function Slots(t: int, b: int, window: int): nat
    requires window > 0
    decreases b - t
  {
    if t >= b then 0 else 1 + Slots(t + window, b, window)
  }

  lemma {:induction false} SlotsAntitone(t: int, u: int, b: int, window: int)
    requires window > 0 && t <= u
    ensures Slots(u, b, window) <= Slots(t, b, window)
    decreases b - t
  {
    if u < b {
      SlotsAntitone(t + window, u + window, b, window);
    }
  }

  lemma {:induction false} SlotsExact(a: int, n: nat, window: int)
    requires window > 0
    ensures Slots(a, a + n * window, window) == n
    decreases n
  {
    if n > 0 {
      assert a + n * window == (a + window) + (n - 1) * window;
      SlotsExact(a + window, n - 1, window);
      assert n * window > 0 by { assert (n - 1) * window >= 0; }
    }
  }

  /** The key's stored window is not over yet. */
  predicate Running(t: Entries, key: string, from: int, window: int) {
    key in t && t[key].start + window > from
  }

  /** When the key's next window can start at the earliest. */
  function NextStart(t: Entries, key: string, from: int, window: int): int {
    if Running(t, key, from, window) then t[key].start + window else from
  }

  /** What the key's running window still admits. */
  function Room(t: Entries, key: string, from: int, limit: nat, window: int): (r: nat) {
    if Running(t, key, from, window) && t[key].count < limit then
      (if t[key].count < 0 then limit else limit - t[key].count)
    else 0
  }

  /** An upper bound on what the key can still get admitted before b without being evicted. */
  function Budget(t: Entries, key: string, from: int, b: int, limit: nat, window: int): nat
    requires window > 0
  {
    Room(t, key, from, limit, window) + limit * Slots(NextStart(t, key, from, window), b, window)
  }

  /** The key's stored window, if any, started by now and has counted its own first request. */
  predicate Started(t: Entries, key: string, from: int) {
    key in t ==> ZERO_TIME < t[key].start <= from && t[key].count >= 1
  }

  lemma {:induction false} Times(limit: nat, x: nat, y: nat)
    requires x <= y
    ensures limit * x <= limit * y
  {
  }

  lemma {:induction false} TimesSucc(limit: nat, x: nat)
    ensures limit * (x + 1) == limit * x + limit
  {
  }

  /** What a step can do to the key's window: count a request in it or restart it, and keep or evict it. */
  lemma {:induction false} StepOnKey(t: Entries, r: Request, key: string)
    requires Evicted(t[r.key := Counted(t, r.key, r.now, r.window)], r.now, r.window, r.after)
    ensures key in r.after ==>
      (r.key == key || key in t) && r.after[key] == (if r.key == key then Counted(t, key, r.now, r.window) else t[key])
  {
  }

  /** Losing the window costs at most one more limit. */
  lemma {:induction false} BudgetWithout(
    t: Entries, gone: Entries, key: string, from: int, b: int, limit: nat, window: int)
    requires window > 0 && Started(t, key, from) && key !in gone
    ensures Budget(gone, key, from, b, limit, window) <= Budget(t, key, from, b, limit, window) + limit
  {
    var next := NextStart(t, key, from, window);
    SlotsAntitone(next, from + window, b, window);
    Times(limit, Slots(from, b, window), Slots(next, b, window) + 1);
    TimesSucc(limit, Slots(next, b, window));
  }

  lemma {:induction false} BudgetLater(
    t: Entries, u: Entries, key: string, from: int, later: int, b: int, limit: nat, window: int)
    requires window > 0 && from <= later && (key in t <==> key in u) && (key in t ==> t[key] == u[key])
    ensures Budget(u, key, later, b, limit, window) <= Budget(t, key, from, b, limit, window)
  {
    var x, y := NextStart(t, key, from, window), NextStart(u, key, later, window);
    SlotsAntitone(x, y, b, window);
    Times(limit, Slots(y, b, window), Slots(x, b, window));
  }

  /** Counting a request, before any eviction, pays for its own admission. */
  lemma {:induction false} BudgetCounted(t: Entries, key: string, from: int, now: int, b: int, limit: nat, window: int)
    requires 0 < window <= Int64.MAX && Started(t, key, from) && ZERO_TIME < from <= now < b
    ensures var entry := Counted(t, key, now, window);
            var t' := t[key := entry];
            && Started(t', key, now)
            && Budget(t', key, now, b, limit, window) + (if entry.count > limit then 0 else 1)
               <= Budget(t, key, from, b, limit, window)
  {
    var entry := Counted(t, key, now, window);
    var t' := t[key := entry];
    if key in t && now - t[key].start < window {
      BudgetLater(t, t, key, from, now, b, limit, window);
    } else {
      var next := NextStart(t, key, from, window);
      assert next <= now && entry == RateWindow(now, 1);
      SlotsAntitone(next, now, b, window);
      Times(limit, Slots(now + window, b, window) + 1, Slots(next, b, window));
      TimesSucc(limit, Slots(now + window, b, window));
    }
  }

  lemma {:induction false} NothingAfterEnd(t: Entries, run: seq<Request>, key: string, a: int, b: int, from: int)
    requires Clocked(from, run) && b <= from
    ensures Admitted(t, run, key, a, b) == 0 && Evictions(t, run, key, a, b) == 0
    decreases |run|
  {
    if run != [] {
      NothingAfterEnd(run[0].after, run[1..], key, a, b, run[0].now);
    }
  }

  /** The admissions are paid for by the budget and one limit for every eviction. */
  predicate Charged(limit: nat, admitted: nat, budget: nat, evictions: nat) {
    admitted <= budget + limit * evictions
  }

  lemma {:induction false} NothingToPay(limit: nat, budget: nat)
    ensures Charged(limit, 0, budget, 0)
  {
  }

  /** One step: what it admits and evicts is charged. */
  lemma {:induction false} Chained(
    limit: nat, own: nat, later: nat, budget: nat, left: nat, evicted: nat, evictions: nat)
    requires left + own <= budget + (if evicted == 1 then limit else 0) && evicted <= 1
    requires Charged(limit, later, left, evictions)
    ensures Charged(limit, own + later, budget, evicted + evictions)
  {
    TimesSucc(limit, evictions);
  }

  lemma {:induction false} NothingMore(t: Entries, run: seq<Request>, key: string, a: int, b: int, from: int)
    requires Clocked(from, run) && (run == [] || run[0].now >= b)
    ensures Admitted(t, run, key, a, b) == 0 && Evictions(t, run, key, a, b) == 0
  {
    if run != [] { NothingAfterEnd(t, run, key, a, b, run[0].now); }
  }

  lemma {:induction false} OneMore(t: Entries, run: seq<Request>, key: string, a: int, b: int)
    requires run != [] && a <= run[0].now < b
    ensures var r := run[0];
            && Admitted(t, run, key, a, b) == Own(t, r, key) + Admitted(r.after, run[1..], key, a, b)
            && Evictions(t, run, key, a, b) == Lost(t, r, key) + Evictions(r.after, run[1..], key, a, b)
  {
  }

  lemma {:induction false} StepWithinBudget(
    t: Entries, r: Request, key: string, limit: nat, window: int, a: int, b: int, from: int)
    requires Evicted(t[r.key := Counted(t, r.key, r.now, r.window)], r.now, r.window, r.after)
    requires r.key == key ==> r.limit == limit && r.window == window
    requires 0 < window <= Int64.MAX && Started(t, key, from) && ZERO_TIME < from && a <= from <= r.now < b
    ensures Started(r.after, key, r.now)
    ensures Budget(r.after, key, r.now, b, limit, window) + Own(t, r, key)
            <= Budget(t, key, from, b, limit, window) + (if Lost(t, r, key) == 1 then limit else 0)
  {
    StepOnKey(t, r, key);
    var t' := if r.key == key then t[key := Counted(t, key, r.now, window)] else t;
    if r.key == key {
      BudgetCounted(t, key, from, r.now, b, limit, window);
    } else {
      BudgetLater(t, t, key, from, r.now, b, limit, window);
    }
    if key in t' && key !in r.after {
      BudgetWithout(t', r.after, key, r.now, b, limit, window);
    } else {
      BudgetLater(t', r.after, key, r.now, r.now, b, limit, window);
    }
  }

  /** What a key gets admitted up to b is charged to its budget. */
  lemma {:induction false} WithinBudget(
    t: Entries, run: seq<Request>, key: string, limit: nat, window: int, a: int, b: int, from: int)
    requires Trace(t, run) && Clocked(from, run) && OneRoute(run, key, limit, window)
    requires 0 < window <= Int64.MAX && a <= from && Started(t, key, from)
    ensures Charged(limit, Admitted(t, run, key, a, b), Budget(t, key, from, b, limit, window), Evictions(t, run, key, a, b))
    decreases |run|
  {
    hide Budget, Charged, Admitted, Evictions, Own, Lost;
    if run == [] || run[0].now >= b {
      NothingMore(t, run, key, a, b, from);
      hide *;
      NothingToPay(limit, Budget(t, key, from, b, limit, window));
    } else {
      var r, rest := run[0], run[1..];
      assert r in run && forall q :: q in rest ==> q in run;
      StepWithinBudget(t, r, key, limit, window, a, b, from);
      WithinBudget(r.after, rest, key, limit, window, a, b, r.now);
      OneMore(t, run, key, a, b);
      hide *;
      Chained(limit, Own(t, r, key), Admitted(r.after, rest, key, a, b), Budget(t, key, from, b, limit, window),
              Budget(r.after, key, r.now, b, limit, window), Lost(t, r, key), Evictions(r.after, rest, key, a, b));
    }
  }

  /** The most that n windows of time can admit: a window that runs on into them adds all but its first request. */
  function RateCap(limit: nat, window: int, n: nat): nat {
    if n == 0 then 0 else n * limit + (if limit > 0 && window >= 2 then limit - 1 else 0)
  }

  /** A budget from inside an interval of n windows. */
  lemma {:induction false} IntervalBudget(t: Entries, key: string, limit: nat, window: int, a: int, n: nat, now: int)
    requires window > 0 && n > 0 && a <= now && Started(t, key, now)
    ensures Budget(t, key, now, a + n * window, limit, window) <= RateCap(limit, window, n)
  {
    var b, next := a + n * window, NextStart(t, key, now, window);
    SlotsExact(a, n, window);
    assert b == (a + window) + (n - 1) * window;
    SlotsExact(a + window, n - 1, window);
    hide Slots;
    if Running(t, key, now, window) && t[key].start >= a {
      SlotsAntitone(a + window, next, b, window);
      Times(limit, Slots(next, b, window), n - 1);
      TimesSucc(limit, n - 1);
    } else {
      SlotsAntitone(a, next, b, window);
      Times(limit, Slots(next, b, window), n);
    }
  }

  lemma {:induction false} StartedStep(t: Entries, r: Request, key: string, from: int)
    requires Evicted(t[r.key := Counted(t, r.key, r.now, r.window)], r.now, r.window, r.after)
    requires Started(t, key, from) && ZERO_TIME < from <= r.now
    ensures Started(r.after, key, r.now)
  {
    StepOnKey(t, r, key);
  }

  /**
    The rate bound: over any run, with any other traffic, any interval of n windows admits at
    most n * limit + (limit - 1) requests of a key, plus one limit for every time the key was
    evicted meanwhile. Without evictions that is less than (n + 1) * limit.
   */
  lemma {:induction false} RateBound(
    t: Entries, run: seq<Request>, key: string, limit: nat, window: int, a: int, n: nat, from: int)
    requires Trace(t, run) && Clocked(from, run) && OneRoute(run, key, limit, window)
    requires 0 < window <= Int64.MAX && Started(t, key, from) && ZERO_TIME < a
    ensures var b := a + n * window;
            Admitted(t, run, key, a, b) <= RateCap(limit, window, n) + limit * Evictions(t, run, key, a, b)
    decreases |run|
  {
    var b := a + n * window;
    if run != [] {
      var r, rest := run[0], run[1..];
      assert r in run && forall q :: q in rest ==> q in run;
      if r.now < a {
        StartedStep(t, r, key, from);
        RateBound(r.after, rest, key, limit, window, a, n, r.now);
        hide RateCap;
      } else if n == 0 {
        NothingAfterEnd(t, run, key, a, b, r.now);
      } else {
        assert Started(t, key, r.now);
        WithinBudget(t, run, key, limit, window, a, b, r.now);
        IntervalBudget(t, key, limit, window, a, n, r.now);
        assert Admitted(t, run, key, a, b)
               <= Budget(t, key, r.now, b, limit, window) + limit * Evictions(t, run, key, a, b);
        hide *;
      }
    }
  }

  /** The run is a run of one key that is never evicted in [a, b), and gets k of its requests admitted there. */
  ghost predicate Admits(
    t: Entries, run: seq<Request>, key: string, limit: int, window: int, from: int, a: int, b: int, k: nat)
  {
    && Trace(t, run) && Clocked(from, run) && OneRoute(run, key, limit, window)
    && Evictions(t, run, key, a, b) == 0 && Admitted(t, run, key, a, b) == k
  }

  lemma {:induction false} NothingYet(t: Entries, key: string, limit: int, window: int, from: int, a: int, b: int)
    requires ZERO_TIME < from
    ensures Admits(t, [], key, limit, window, from, a, b, 0)
  {
  }

  /** One more request of the only client in front of a run of its requests; c is its count in its window. */
  lemma {:induction false} Ahead(
    t: Entries, rest: seq<Request>, key: string, limit: int, window: int,
    from: int, now: int, s: int, c: int, a: int, b: int, k: nat) returns (run: seq<Request>)
    requires t.Keys <= {key} && Counted(t, key, now, window) == RateWindow(s, c)
    requires ZERO_TIME < from <= now && Admits(map[key := RateWindow(s, c)], rest, key, limit, window, now, a, b, k)
    ensures Admits(t, run, key, limit, window, from, a, b, k + (if a <= now < b && c <= limit then 1 else 0))
  {
    var r := Request(now, key, limit, window, map[key := RateWindow(s, c)]);
    run := [r] + rest;
    assert run[0] == r && run[1..] == rest;
    assert t[key := RateWindow(s, c)] == r.after && r.after.Keys == {key};
    hide Counted;
  }

  lemma {:induction false} CountedOn(key: string, s: int, c: int, now: int, window: int)
    requires 0 < window <= Int64.MAX && ZERO_TIME < s <= now
    ensures Counted(map[key := RateWindow(s, c)], key, now, window)
            == if now < s + window then RateWindow(s, c + 1) else RateWindow(now, 1)
  {
  }

  lemma {:induction false} NextFits(s: int, n: nat, window: int, b: int)
    requires window > 0 && n > 0 && s + n * window < b
    ensures s + window < b && s + window + (n - 1) * window < b
  {
    assert n * window == window + (n - 1) * window && (n - 1) * window >= 0;
  }

  /**
    Filling windows: from a window started at s that has counted c requests, the key's own requests
    can fill it at the instant at, and then n whole windows, each as soon as the one before is over.
   */
  lemma {:induction false} Fill(
    key: string, limit: nat, window: int, s: int, c: nat, at: int, n: nat, a: int, b: int) returns (run: seq<Request>)
    requires 0 < window <= Int64.MAX && 1 <= c <= limit
    requires ZERO_TIME < s <= at < s + window && a <= at < b && (n > 0 ==> s + n * window < b)
    ensures Admits(map[key := RateWindow(s, c)], run, key, limit, window, at, a, b, limit - c + n * limit)
    decreases n, limit - c
  {
    hide Admits, Counted;
    var t: Entries := map[key := RateWindow(s, c)];
    if c < limit {
      var rest := Fill(key, limit, window, s, c + 1, at, n, a, b);
      CountedOn(key, s, c, at, window);
      run := Ahead(t, rest, key, limit, window, at, at, s, c + 1, a, b, limit - (c + 1) + n * limit);
    } else if n > 0 {
      NextFits(s, n, window, b);
      var rest := Fill(key, limit, window, s + window, 1, s + window, n - 1, a, b);
      CountedOn(key, s, c, s + window, window);
      TimesSucc(limit, n - 1);
      run := Ahead(t, rest, key, limit, window, at, s + window, s + window, 1, a, b, limit - 1 + (n - 1) * limit);
    } else {
      run := [];
      NothingYet(t, key, limit, window, at, a, b);
    }
  }

  /** A run of one key from an empty table that is not evicted during the n windows from a. */
  ghost predicate Undisturbed(run: seq<Request>, key: string, limit: nat, window: int, a: int, n: nat) {
    && Trace(map[], run) && Clocked(ZERO_TIME + 1, run) && OneRoute(run, key, limit, window)
    && Evictions(map[], run, key, a, a + n * window) == 0
  }

  lemma {:induction false} CoverFits(limit: nat, window: int, a: int, n: nat)
    requires window > 0 && limit > 0 && n > 0
    ensures a < a + n * window && a - 1 + n * window < a + n * window && a + (n - 1) * window < a + n * window
    ensures RateCap(limit, window, n) == if window >= 2 then limit - 1 + n * limit else limit + (n - 1) * limit
  {
    assert n * window == window + (n - 1) * window && (n - 1) * window >= 0;
    TimesSucc(limit, n - 1);
  }

  lemma {:induction false} Earlier(
    t: Entries, run: seq<Request>, key: string, limit: int, window: int, from: int, later: int, a: int, b: int, k: nat)
    requires ZERO_TIME < from <= later && Admits(t, run, key, limit, window, later, a, b, k)
    ensures Admits(t, run, key, limit, window, from, a, b, k)
  {
  }

  /** The key's first window starts at s, at a or just before; from a on it is filled, and n windows after it. */
  lemma {:induction false} Cover(key: string, limit: nat, window: int, a: int, s: int, n: nat, b: int)
    returns (run: seq<Request>)
    requires 0 < window <= Int64.MAX && limit > 0 && a < b && (n > 0 ==> s + n * window < b)
    requires ZERO_TIME + 1 <= s <= a < s + window
    ensures Admits(map[], run, key, limit, window, ZERO_TIME + 1, a, b, (if s == a then limit else limit - 1) + n * limit)
  {
    assert Counted(map[], key, s, window) == RateWindow(s, 1);
    hide *;
    var rest := Fill(key, limit, window, s, 1, a, n, a, b);
    Earlier(map[key := RateWindow(s, 1)], rest, key, limit, window, s, a, a, b, limit - 1 + n * limit);
    run := Ahead(map[], rest, key, limit, window, ZERO_TIME + 1, s, s, 1, a, b, limit - 1 + n * limit);
  }

  /** The bound is reached for every client, route and interval. */
  lemma {:induction false} RateBoundReached(scope: string, ip: string, limit: nat, window: int, a: int, n: nat)
    returns (run: seq<Request>)
    requires 0 < window <= Int64.MAX && a > ZERO_TIME + 1
    ensures Undisturbed(run, scope + ":" + ip, limit, window, a, n)
    ensures Admitted(map[], run, scope + ":" + ip, a, a + n * window) == RateCap(limit, window, n)
  {
    var key, b := scope + ":" + ip, a + n * window;
    hide Trace, Clocked, OneRoute, Evictions, Admitted, Counted;
    if limit == 0 || n == 0 {
      run := [];
      NothingYet(map[], key, limit, window, ZERO_TIME + 1, a, b);
      assert n * limit == 0;
    } else {
      var early := window >= 2;
      CoverFits(limit, window, a, n);
      run := Cover(key, limit, window, a, if early then a - 1 else a, if early then n else n - 1, b);
      assert Admits(map[], run, key, limit, window, ZERO_TIME + 1, a, b, RateCap(limit, window, n));
    }
  }

  /** Every undisturbed run keeps to the rate the limiter is named for: n windows admit at most n limits. */
  ghost predicate KeepsRate(key: string, limit: nat, window: int, a: int, n: nat) {
    forall run :: Undisturbed(run, key, limit, window, a, n) ==> Admitted(map[], run, key, a, a + n * window) <= n * limit
  }

  /** That holds exactly on routes with a limit of at most one, or a window of one nanosecond. */
  lemma {:induction false} KeepsRateExactly(scope: string, ip: string, limit: nat, window: int, a: int, n: nat)
    requires 0 < window <= Int64.MAX && a > ZERO_TIME + 1 && n > 0
    ensures KeepsRate(scope + ":" + ip, limit, window, a, n) <==> limit <= 1 || window == 1
  {
    var key := scope + ":" + ip;
    if limit <= 1 || window == 1 {
      forall run | Undisturbed(run, key, limit, window, a, n)
        ensures Admitted(map[], run, key, a, a + n * window) <= n * limit
      {
        RateBound(map[], run, key, limit, window, a, n, ZERO_TIME + 1);
        hide Admitted, Evictions, Trace, Clocked, OneRoute;
      }
    } else {
      var run := RateBoundReached(scope, ip, limit, window, a, n);
      hide Undisturbed;
    }
  }

  // ----- One client alone -----

  /** The decisions the run gives the key. */
  function Decisions(t: Entries, run: seq<Request>, key: string): seq<Decision>
    decreases |run|
  {
    if run == [] then []
    else
      var r := run[0];
      var rest := Decisions(r.after, run[1..], key);
      if r.key == key then [Decide(Counted(t, key, r.now, r.window), r.now, r.limit, r.window)] + rest else rest
  }

  /** The same decisions made from the key's own window and requests alone. */
  function OwnDecisions(own: Entries, run: seq<Request>, key: string): seq<Decision>
    decreases |run|
  {
    if run == [] then []
    else
      var r := run[0];
      if r.key == key then
        var entry := Counted(own, key, r.now, r.window);
        [Decide(entry, r.now, r.limit, r.window)] + OwnDecisions(map[key := entry], run[1..], key)
      else OwnDecisions(own, run[1..], key)
  }

  /** The key's window is never evicted. */
  predicate Kept(t: Entries, run: seq<Request>, key: string)
    decreases |run|
  {
    run != [] ==> (key in t || run[0].key == key ==> key in run[0].after) && Kept(run[0].after, run[1..], key)
  }

  /** As long as its window is kept, a client is answered as if it were alone, whatever else is counted or evicted. */
  lemma {:induction false} AnsweredAsIfAlone(t: Entries, own: Entries, run: seq<Request>, key: string)
    requires Trace(t, run) && Kept(t, run, key)
    requires (key in t <==> key in own) && (key in t ==> t[key] == own[key])
    ensures Decisions(t, run, key) == OwnDecisions(own, run, key)
    decreases |run|
  {
    if run != [] {
      var r := run[0];
      StepOnKey(t, r, key);
      var own' := if r.key == key then map[key := Counted(own, key, r.now, r.window)] else own;
      AnsweredAsIfAlone(r.after, own', run[1..], key);
    }
  }
}
