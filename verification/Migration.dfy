/**
  The migration runner as a protocol: any number of instances, each stepping through its own list of
  migration files, one transaction a file, under one advisory lock that the transaction holds to its end.
 */
module Migration {
  import opened Common

  datatype File = File(version: string, content: string)

  /** The committed ledger table: version to checksum, or to no checksum for rows older than that column. */
  type Ledger = map<string, Option<string>>

  /** What the SELECT for a version finds. */
  datatype Stored = Missing | NoChecksum | Checksum(sum: string)

  datatype Phase = Idle | Begun | Locked | Looked(stored: Stored) | Ran | Recorded | Backfilled | Failed

  /** One call of migrate: its files, the index of the file it is at, and where it is with that file. */
  datatype Proc = Proc(files: seq<File>, next: nat, phase: Phase)

  /** A committed migration: which file, by which instance, and where in that instance's list it stands. */
  datatype Applied = Applied(version: string, content: string, instance: nat, position: nat)

  /** The committed tables, the advisory lock, and all instances. */
  datatype State = State(ledger: Ledger, applied: seq<Applied>, lock: Option<nat>, procs: seq<Proc>)

  datatype Action = Begin | Lock | Look | Run | Record | Backfill | Commit | CommitLost | Fail

  /** A new instance starts, or instance i makes a move. */
  datatype Event = Start(files: seq<File>) | Move(i: nat, action: Action)

  function Lookup(ledger: Ledger, version: string): Stored {
    if version !in ledger then Missing
    else
      match ledger[version]
      case None => NoChecksum
      case Some(sum) => Checksum(sum)
  }

  /** What the transaction has read, and still relies on, about its file's ledger row. */
  function Belief(phase: Phase): Option<Stored> {
    match phase
    case Looked(stored) => Some(stored)
    case Ran => Some(Missing)
    case Recorded => Some(Missing)
    case Backfilled => Some(NoChecksum)
    case _ => None
  }

  predicate Holds(phase: Phase) {
    phase == Locked || Belief(phase).Some?
  }

  function Current(p: Proc): File
    requires p.next < |p.files|
  {
    p.files[p.next]
  }

  predicate CanCommit(sum: string -> string, p: Proc)
    requires p.next < |p.files|
  {
    p.phase == Recorded || p.phase == Backfilled || p.phase == Looked(Checksum(sum(Current(p).content)))
  }

  function LedgerWith(sum: string -> string, ledger: Ledger, p: Proc): Ledger
    requires p.next < |p.files|
  {
    if p.phase == Recorded || p.phase == Backfilled then ledger[Current(p).version := Some(sum(Current(p).content))]
    else ledger
  }

  function AppliedWith(applied: seq<Applied>, p: Proc, i: nat): seq<Applied>
    requires p.next < |p.files|
  {
    if p.phase == Recorded then applied + [Applied(Current(p).version, Current(p).content, i, p.next)] else applied
  }

  /** Whether instance i can make the move; a wrong checksum leaves only failing. */
  predicate Enabled(sum: string -> string, s: State, i: nat, action: Action) {
    i < |s.procs| && s.procs[i].next < |s.procs[i].files| &&
    var p := s.procs[i];
    match action
    case Begin => p.phase == Idle
    case Lock => p.phase == Begun && s.lock == None
    case Look => p.phase == Locked
    case Run => p.phase == Looked(Missing)
    case Record => p.phase == Ran
    case Backfill => p.phase == Looked(NoChecksum)
    case Commit => CanCommit(sum, p)
    case CommitLost => CanCommit(sum, p)
    case Fail => p.phase != Failed
  }

  /** Where a move takes the instance itself. */
  function Moved(sum: string -> string, s: State, i: nat, action: Action): Proc
    requires Enabled(sum, s, i, action)
  {
    var p := s.procs[i];
    match action
    case Begin => p.(phase := Begun)
    case Lock => p.(phase := Locked)
    case Look => p.(phase := Looked(Lookup(s.ledger, Current(p).version)))
    case Run => p.(phase := Ran)
    case Record => p.(phase := Recorded)
    case Backfill => p.(phase := Backfilled)
    case Commit => p.(phase := Idle, next := p.next + 1)
    case CommitLost => p.(phase := Failed)
    case Fail => p.(phase := Failed)
  }

  predicate Commits(action: Action) {
    action == Commit || action == CommitLost
  }

  /**
    One event. Only a commit changes the committed tables; CommitLost is one whose reply never
    arrives. Failing, for whatever reason and at whatever point, rolls the open transaction back.
   */
  function Step(sum: string -> string, s: State, e: Event): State {
    match e
    case Start(files) => s.(procs := s.procs + [Proc(files, 0, Idle)])
    case Move(i, action) =>
      if !Enabled(sum, s, i, action) then s
      else
        var p := s.procs[i];
        var p' := Moved(sum, s, i, action);
        State(
          if Commits(action) then LedgerWith(sum, s.ledger, p) else s.ledger,
          if Commits(action) then AppliedWith(s.applied, p, i) else s.applied,
          if action == Lock then Some(i) else if Holds(p.phase) && !Holds(p'.phase) then None else s.lock,
          s.procs[i := p'])
  }

  function After(sum: string -> string, s: State, run: seq<Event>): State
    decreases |run|
  {
    if run == [] then s else After(sum, Step(sum, s, run[0]), run[1..])
  }

  // ----- Invariants -----

  /**
    The lock is held by an instance in its transaction and by nobody else, and what the holder has
    read still stands in the committed ledger.
   */
  ghost predicate Tied(s: State) {
    && (s.lock.Some? ==> s.lock.value < |s.procs| && Holds(s.procs[s.lock.value].phase))
    && forall i :: 0 <= i < |s.procs| && Holds(s.procs[i].phase) ==>
      var p := s.procs[i];
      && s.lock == Some(i) && p.next < |p.files|
      && (Belief(p.phase).Some? ==> Lookup(s.ledger, Current(p).version) == Belief(p.phase).value)
  }

  predicate IsRecorded(sum: string -> string, ledger: Ledger, f: File) {
    f.version in ledger && ledger[f.version] == Some(sum(f.content))
  }

  /** Every file the instance is past is recorded with the checksum of what the instance has for it. */
  ghost predicate PastFiles(sum: string -> string, ledger: Ledger, p: Proc) {
    p.next <= |p.files| && forall k :: 0 <= k < p.next ==> IsRecorded(sum, ledger, p.files[k])
  }

  ghost predicate PastIsRecorded(sum: string -> string, s: State) {
    forall i :: 0 <= i < |s.procs| ==> PastFiles(sum, s.ledger, s.procs[i])
  }

  /** Every applied migration is recorded with its checksum, and none was applied twice. */
  ghost predicate AppliedOnce(sum: string -> string, s: State) {
    && (forall a :: a in s.applied ==> IsRecorded(sum, s.ledger, File(a.version, a.content)))
    && (forall j, k :: 0 <= j < k < |s.applied| ==> s.applied[j].version != s.applied[k].version)
  }

  ghost predicate Inv(sum: string -> string, s: State) {
    Tied(s) && PastIsRecorded(sum, s) && AppliedOnce(sum, s)
  }

  /** Rows are never deleted, and a checksum once there never changes. */
  ghost predicate Grows(before: Ledger, after: Ledger) {
    forall v :: v in before ==> v in after && (before[v].Some? ==> after[v] == before[v])
  }

  /** A commit writes only over a row that is missing or has no checksum. */
  lemma {:induction false} StepGrows(sum: string -> string, s: State, e: Event)
    requires Tied(s)
    ensures Grows(s.ledger, Step(sum, s, e).ledger)
  {
  }

  /** The instance that moved holds the lock as long as it is in its transaction, and lets go of nobody else's. */
  lemma {:induction false} MoverTied(sum: string -> string, s: State, i: nat, action: Action)
    requires Tied(s) && Enabled(sum, s, i, action)
    ensures var s' := Step(sum, s, Move(i, action));
            && |s'.procs| == |s.procs|
            && (Holds(s'.procs[i].phase) ==>
                 var p := s'.procs[i];
                 && s'.lock == Some(i) && p.next < |p.files|
                 && (Belief(p.phase).Some? ==> Lookup(s'.ledger, Current(p).version) == Belief(p.phase).value))
            && (s'.lock.Some? ==> s'.lock.value < |s'.procs| && Holds(s'.procs[s'.lock.value].phase))
  {
    hide AppliedWith, LedgerWith;
  }

  /** While another instance is in its transaction, a move commits nothing and leaves the lock alone. */
  lemma {:induction false} OthersTied(sum: string -> string, s: State, i: nat, action: Action)
    requires Tied(s) && Enabled(sum, s, i, action)
    ensures var s' := Step(sum, s, Move(i, action));
            forall j :: 0 <= j < |s.procs| && j != i ==>
              s'.procs[j] == s.procs[j] && (Holds(s.procs[j].phase) ==> s'.ledger == s.ledger && s'.lock == s.lock)
  {
    hide AppliedWith, LedgerWith, Lookup;
  }

  lemma {:induction false} StepTied(sum: string -> string, s: State, e: Event)
    requires Tied(s)
    ensures Tied(Step(sum, s, e))
  {
    if e.Move? && Enabled(sum, s, e.i, e.action) {
      hide Step, Enabled, AppliedWith;
      MoverTied(sum, s, e.i, e.action);
      OthersTied(sum, s, e.i, e.action);
    }
  }

  lemma {:induction false} StaysRecorded(sum: string -> string, before: Ledger, after: Ledger, f: File)
    requires Grows(before, after) && IsRecorded(sum, before, f)
    ensures IsRecorded(sum, after, f)
  {
  }

  /** A move leaves the instance where it was in its list, or one file further with that file recorded. */
  lemma {:induction false} MoveOn(sum: string -> string, s: State, i: nat, action: Action)
    requires Tied(s) && Enabled(sum, s, i, action)
    ensures var p, p' := s.procs[i], Moved(sum, s, i, action);
            && p'.files == p.files
            && (p'.next == p.next
                || (p'.next == p.next + 1 && IsRecorded(sum, Step(sum, s, Move(i, action)).ledger, Current(p))))
  {
  }

  lemma {:induction false} StepPast(sum: string -> string, s: State, e: Event)
    requires Tied(s) && PastIsRecorded(sum, s)
    ensures PastIsRecorded(sum, Step(sum, s, e))
  {
    var s' := Step(sum, s, e);
    StepGrows(sum, s, e);
    if e.Move? && Enabled(sum, s, e.i, e.action) { MoveOn(sum, s, e.i, e.action); }
    hide Grows, Tied, Moved, LedgerWith, AppliedWith, Enabled, IsRecorded;
    forall i | 0 <= i < |s'.procs|
      ensures PastFiles(sum, s'.ledger, s'.procs[i])
    {
      if i < |s.procs| {
        assert PastFiles(sum, s.ledger, s.procs[i]);
        forall k | 0 <= k < s.procs[i].next
          ensures IsRecorded(sum, s'.ledger, s.procs[i].files[k])
        {
          StaysRecorded(sum, s.ledger, s'.ledger, s.procs[i].files[k]);
        }
      }
    }
  }

  lemma {:induction false} StepOnce(sum: string -> string, s: State, e: Event)
    requires Tied(s) && AppliedOnce(sum, s)
    ensures AppliedOnce(sum, Step(sum, s, e))
  {
    StepGrows(sum, s, e);
  }

  lemma {:induction false} StepInv(sum: string -> string, s: State, e: Event)
    requires Inv(sum, s)
    ensures Inv(sum, Step(sum, s, e)) && Grows(s.ledger, Step(sum, s, e).ledger)
  {
    StepTied(sum, s, e);
    StepGrows(sum, s, e);
    StepPast(sum, s, e);
    StepOnce(sum, s, e);
  }

  // ----- Runs -----

  /** Before any instance has started: an arbitrary ledger, nobody holding the lock. */
  predicate Initial(s: State) {
    s.applied == [] && s.lock == None && s.procs == []
  }

  lemma {:induction false} GrowsReflexive(a: Ledger)
    ensures Grows(a, a)
  {
  }

  lemma {:induction false} GrowsTransitive(a: Ledger, b: Ledger, c: Ledger)
    requires Grows(a, b) && Grows(b, c)
    ensures Grows(a, c)
  {
  }

  /**
    Whatever the interleaving: no migration is applied twice, every applied migration and every file
    an instance is past is in the ledger with its checksum, and ledger rows only appear or gain a checksum.
   */
  lemma {:induction false} EveryRun(sum: string -> string, s: State, run: seq<Event>)
    requires Inv(sum, s)
    ensures Inv(sum, After(sum, s, run)) && Grows(s.ledger, After(sum, s, run).ledger)
    decreases |run|
  {
    hide Inv, Step, Grows;
    GrowsReflexive(s.ledger);
    if run != [] {
      var s' := Step(sum, s, run[0]);
      StepInv(sum, s, run[0]);
      EveryRun(sum, s', run[1..]);
      GrowsTransitive(s.ledger, s'.ledger, After(sum, s', run[1..]).ledger);
    }
  }

  lemma {:induction false} InitialInv(sum: string -> string, s: State)
    requires Initial(s)
    ensures Inv(sum, s)
  {
  }

  /** The instance returned without an error. */
  predicate Done(p: Proc) {
    p.next == |p.files| && p.phase != Failed
  }

  /** A version that has a row when the instances start is never applied by any of them. */
  lemma {:induction false} RecordedIsNotApplied(sum: string -> string, s: State, e: Event, version: string)
    requires Tied(s) && version in s.ledger && forall a :: a in s.applied ==> a.version != version
    ensures forall a :: a in Step(sum, s, e).applied ==> a.version != version
  {
  }

  lemma {:induction false} NeverReapplied(sum: string -> string, s: State, run: seq<Event>, version: string)
    requires Inv(sum, s) && version in s.ledger && forall a :: a in s.applied ==> a.version != version
    ensures forall a :: a in After(sum, s, run).applied ==> a.version != version
    decreases |run|
  {
    if run != [] {
      RecordedIsNotApplied(sum, s, run[0], version);
      StepInv(sum, s, run[0]);
      hide Step;
      assert version in Step(sum, s, run[0]).ledger;
      NeverReapplied(sum, Step(sum, s, run[0]), run[1..], version);
    }
  }

  /**
    The protocol's promises, from any ledger and for any interleaving of any number of instances,
    with arbitrary failures: migrations are applied at most once and never when the ledger already
    had them; and when an instance returns without an error, every one of its versions is recorded
    with its checksum, then and ever after.
   */
  lemma {:induction false} MigrationSafety(sum: string -> string, s: State, run: seq<Event>, later: seq<Event>)
    requires Initial(s)
    ensures var now := After(sum, s, run);
      && (forall j, k :: 0 <= j < k < |now.applied| ==> now.applied[j].version != now.applied[k].version)
      && (forall a :: a in now.applied ==> a.version !in s.ledger && IsRecorded(sum, now.ledger, File(a.version, a.content)))
      && Grows(s.ledger, now.ledger)
      && (forall i, f :: 0 <= i < |now.procs| && Done(now.procs[i]) && f in now.procs[i].files ==>
            IsRecorded(sum, After(sum, now, later).ledger, f))
  {
    var now := After(sum, s, run);
    InitialInv(sum, s);
    EveryRun(sum, s, run);
    EveryRun(sum, now, later);
    forall a | a in now.applied
      ensures a.version !in s.ledger
    {
      if a.version in s.ledger {
        NeverReapplied(sum, s, run, a.version);
      }
    }
    forall i, f | 0 <= i < |now.procs| && Done(now.procs[i]) && f in now.procs[i].files
      ensures IsRecorded(sum, After(sum, now, later).ledger, f)
    {
      assert PastFiles(sum, now.ledger, now.procs[i]);
      var k :| 0 <= k < |now.procs[i].files| && now.procs[i].files[k] == f;
      StaysRecorded(sum, now.ledger, After(sum, now, later).ledger, f);
    }
  }

  // ----- Reruns, mismatches, failures -----

  lemma {:induction false} AfterUnfolds(sum: string -> string, s: State, run: seq<Event>)
    requires run != []
    ensures After(sum, s, run) == After(sum, Step(sum, s, run[0]), run[1..])
  {
  }

  lemma {:induction false} RerunStep(sum: string -> string, s: State, e: Event, i: nat)
    requires Tied(s) && i < |s.procs| && forall f :: f in s.procs[i].files ==> f.version in s.ledger
    ensures var s' := Step(sum, s, e);
            && i < |s'.procs| && s'.procs[i].files == s.procs[i].files
            && (forall a :: a in s'.applied && a.instance == i ==> a in s.applied)
  {
  }

  /** An instance whose versions all have ledger rows applies nothing from then on. */
  lemma {:induction false} RerunAppliesNothing(sum: string -> string, s: State, run: seq<Event>, i: nat)
    requires Inv(sum, s) && i < |s.procs| && forall f :: f in s.procs[i].files ==> f.version in s.ledger
    ensures forall a :: a in After(sum, s, run).applied && a.instance == i ==> a in s.applied
    decreases |run|
  {
    if run != [] {
      var s' := Step(sum, s, run[0]);
      StepInv(sum, s, run[0]);
      RerunStep(sum, s, run[0], i);
      hide Step, Inv, After;
      RerunAppliesNothing(sum, s', run[1..], i);
      AfterUnfolds(sum, s, run);
    }
  }

  /** In particular a rerun of the files of an instance that returned without an error. */
  lemma {:induction false} RerunAfterDone(sum: string -> string, s: State, run: seq<Event>, done: nat)
    requires Inv(sum, s) && done < |s.procs| && Done(s.procs[done]) && forall a :: a in s.applied ==> a.instance < |s.procs|
    ensures forall a :: a in After(sum, s, [Start(s.procs[done].files)] + run).applied ==> a.instance != |s.procs|
  {
    var e := Start(s.procs[done].files);
    var s', i := Step(sum, s, e), |s.procs|;
    assert ([e] + run)[0] == e && ([e] + run)[1..] == run;
    StepInv(sum, s, e);
    assert PastFiles(sum, s.ledger, s.procs[done]);
    forall f | f in s'.procs[i].files
      ensures f.version in s'.ledger
    {
      var k :| 0 <= k < |s.procs[done].files| && s.procs[done].files[k] == f;
      assert IsRecorded(sum, s.ledger, s.procs[done].files[k]);
    }
    assert s'.applied == s.applied;
    hide Step, Inv, PastFiles;
    RerunAppliesNothing(sum, s', run, i);
  }

  /** An instance never gets past a file whose recorded checksum is not that of the instance's content. */
  lemma {:induction false} MismatchStops(sum: string -> string, s: State, run: seq<Event>, i: nat, k: nat)
    requires Inv(sum, s) && i < |s.procs| && s.procs[i].next <= k < |s.procs[i].files|
    requires var f := s.procs[i].files[k];
             f.version in s.ledger && s.ledger[f.version].Some? && !IsRecorded(sum, s.ledger, f)
    ensures var now := After(sum, s, run); i < |now.procs| && now.procs[i].next <= k && !Done(now.procs[i])
    decreases |run|
  {
    if run != [] {
      var e, s' := run[0], Step(sum, s, run[0]);
      StepInv(sum, s, e);
      if e.Move? && Enabled(sum, s, e.i, e.action) { MoveOn(sum, s, e.i, e.action); }
      hide Inv, Moved, LedgerWith, AppliedWith, Enabled, After;
      MismatchStops(sum, s', run[1..], i, k);
      AfterUnfolds(sum, s, run);
    }
  }

  /** A failure takes back the instance's own open transaction, and touches nothing else. */
  lemma {:induction false} FailureIsLocal(sum: string -> string, s: State, i: nat)
    requires Tied(s) && Enabled(sum, s, i, Fail)
    ensures var s' := Step(sum, s, Move(i, Fail));
            && s'.ledger == s.ledger && s'.applied == s.applied
            && (s'.lock == if s.lock == Some(i) && Holds(s.procs[i].phase) then None else s.lock)
            && (forall j :: 0 <= j < |s.procs| && j != i ==> s'.procs[j] == s.procs[j])
            && Tied(s')
  {
    StepTied(sum, s, Move(i, Fail));
  }

  // ----- File order -----

  /** The files without a row in the ledger, in file order. */
  function Pending(files: seq<File>, ledger: Ledger): seq<File> {
    if files == [] then []
    else
      var n := |files| - 1;
      Pending(files[..n], ledger) + (if files[n].version in ledger then [] else [files[n]])
  }

  function FilesOf(applied: seq<Applied>): (r: seq<File>)
    ensures |r| == |applied|
    ensures forall i :: 0 <= i < |applied| ==> r[i] == File(applied[i].version, applied[i].content)
  {
    seq(|applied|, i requires 0 <= i < |applied| => File(applied[i].version, applied[i].content))
  }

  ghost predicate DistinctVersions(files: seq<File>) {
    forall j, k :: 0 <= j < k < |files| ==> files[j].version != files[k].version
  }

  lemma {:induction false} PendingMembers(files: seq<File>, ledger: Ledger, n: nat, f: File)
    requires n <= |files|
    ensures f in Pending(files[..n], ledger) <==> f.version !in ledger && exists k :: 0 <= k < n && files[k] == f
  {
    if n > 0 {
      assert files[..n][..n - 1] == files[..n - 1];
      PendingMembers(files, ledger, n - 1, f);
    }
  }

  lemma {:induction false} NothingPending(files: seq<File>, ledger: Ledger, n: nat, k: nat)
    requires n <= k <= |files| && forall m :: n <= m < k ==> files[m].version in ledger
    ensures Pending(files[..k], ledger) == Pending(files[..n], ledger)
  {
    if n < k {
      assert files[..k][..k - 1] == files[..k - 1];
      NothingPending(files, ledger, n, k - 1);
    }
  }

  /** The ledger has the rows it started with and one for each applied migration. */
  ghost predicate RowsExact(start: Ledger, s: State) {
    forall v :: v in s.ledger <==> v in start || exists a :: a in s.applied && a.version == v
  }

  /** All instances run the same files, and have applied the first pending ones in file order. */
  ghost predicate OrderedFor(files: seq<File>, start: Ledger, s: State, n: nat) {
    && (forall p :: p in s.procs ==> p.files == files)
    && n <= |files| && FilesOf(s.applied) == Pending(files[..n], start)
  }

  ghost predicate Ordered(files: seq<File>, start: Ledger, s: State) {
    exists n :: OrderedFor(files, start, s, n)
  }

  lemma {:induction false} StepRows(sum: string -> string, start: Ledger, s: State, e: Event)
    requires Tied(s) && RowsExact(start, s)
    ensures RowsExact(start, Step(sum, s, e))
  {
  }

  lemma {:induction false} AppliedPending(files: seq<File>, start: Ledger, s: State, n: nat, v: string)
    requires OrderedFor(files, start, s, n)
    requires exists a :: a in s.applied && a.version == v
    ensures exists m :: 0 <= m < n && files[m].version == v
  {
    var a :| a in s.applied && a.version == v;
    var j :| 0 <= j < |s.applied| && s.applied[j] == a;
    var f := FilesOf(s.applied)[j];
    assert f in FilesOf(s.applied);
    PendingMembers(files, start, n, f);
  }

  lemma {:induction false} PendingApplied(files: seq<File>, start: Ledger, s: State, n: nat, k: nat)
    requires OrderedFor(files, start, s, n) && k < n && files[k].version !in start
    ensures exists a :: a in s.applied && a.version == files[k].version
  {
    PendingMembers(files, start, n, files[k]);
    var j :| 0 <= j < |s.applied| && FilesOf(s.applied)[j] == files[k];
    assert s.applied[j] in s.applied;
  }

  /** A recorded file past the pending part that was applied had its row from the start. */
  lemma {:induction false} RecordedFromStart(
    sum: string -> string, files: seq<File>, start: Ledger, s: State, n: nat, m: nat)
    requires DistinctVersions(files) && RowsExact(start, s) && OrderedFor(files, start, s, n)
    requires n <= m < |files| && IsRecorded(sum, s.ledger, files[m])
    ensures files[m].version in start
  {
    hide Pending, FilesOf;
    if files[m].version !in start {
      AppliedPending(files, start, s, n, files[m].version);
    }
  }

  lemma {:induction false} NotYetPending(files: seq<File>, start: Ledger, s: State, n: nat, k: nat)
    requires RowsExact(start, s) && OrderedFor(files, start, s, n) && k < |files| && files[k].version !in s.ledger
    ensures n <= k && files[k].version !in start
  {
    hide Pending, FilesOf;
    if k < n { PendingApplied(files, start, s, n, k); }
  }

  lemma {:induction false} PendingOneMore(files: seq<File>, ledger: Ledger, k: nat)
    requires k < |files| && files[k].version !in ledger
    ensures Pending(files[..k + 1], ledger) == Pending(files[..k], ledger) + [files[k]]
  {
    assert files[..k + 1][..k] == files[..k];
  }

  /** The next file to be applied is the next pending one. */
  lemma {:induction false} NextPending(sum: string -> string, files: seq<File>, start: Ledger, s: State, n: nat, k: nat)
    requires DistinctVersions(files) && RowsExact(start, s) && OrderedFor(files, start, s, n)
    requires k < |files| && files[k].version !in s.ledger
    requires forall m :: 0 <= m < k ==> IsRecorded(sum, s.ledger, files[m])
    ensures Pending(files[..k + 1], start) == FilesOf(s.applied) + [files[k]]
  {
    assert FilesOf(s.applied) == Pending(files[..n], start) && n <= |files|;
    hide *;
    NotYetPending(files, start, s, n, k);
    forall m | n <= m < k
      ensures files[m].version in start
    {
      RecordedFromStart(sum, files, start, s, n, m);
    }
    NothingPending(files, start, n, k);
    PendingOneMore(files, start, k);
  }

  lemma {:induction false} SameOrdered(files: seq<File>, start: Ledger, s: State, s': State)
    requires Ordered(files, start, s) && s'.applied == s.applied && forall p :: p in s'.procs ==> p.files == files
    ensures Ordered(files, start, s')
  {
    hide Pending;
    var n :| OrderedFor(files, start, s, n);
    assert OrderedFor(files, start, s', n);
  }

  ghost function SomeOrder(files: seq<File>, start: Ledger, s: State): (n: nat)
    requires Ordered(files, start, s)
    ensures OrderedFor(files, start, s, n)
  {
    var n :| OrderedFor(files, start, s, n);
    n
  }

  lemma {:induction false} OneMoreFile(applied: seq<Applied>, f: File, i: nat, position: nat)
    ensures FilesOf(applied + [Applied(f.version, f.content, i, position)]) == FilesOf(applied) + [f]
  {
  }

  /** The migrations of applied are those of s and the file instance i is at, which has no row while all before it have. */
  ghost predicate AppliesNext(sum: string -> string, s: State, applied: seq<Applied>, i: nat)
    requires i < |s.procs|
  {
    var p := s.procs[i];
    && p.next < |p.files| && Current(p).version !in s.ledger && p.phase == Recorded
    && (forall m :: 0 <= m < p.next ==> IsRecorded(sum, s.ledger, p.files[m]))
    && applied == s.applied + [Applied(Current(p).version, Current(p).content, i, p.next)]
  }

  lemma {:induction false} GrowsOrdered(
    sum: string -> string, files: seq<File>, start: Ledger, s: State, s': State, i: nat)
    requires DistinctVersions(files) && RowsExact(start, s) && Ordered(files, start, s)
    requires forall p :: p in s'.procs ==> p.files == files
    requires i < |s.procs| && AppliesNext(sum, s, s'.applied, i)
    ensures Ordered(files, start, s')
  {
    var n, p := SomeOrder(files, start, s), s.procs[i];
    assert p in s.procs;
    NextPending(sum, files, start, s, n, p.next);
    OneMoreFile(s.applied, files[p.next], i, p.next);
    hide FilesOf, Pending, RowsExact, DistinctVersions, IsRecorded;
    assert OrderedFor(files, start, s', p.next + 1);
  }

  lemma {:induction false} InvTied(sum: string -> string, s: State)
    requires Inv(sum, s)
    ensures Tied(s)
  {
  }

  lemma {:induction false} StepFiles(sum: string -> string, files: seq<File>, start: Ledger, s: State, e: Event)
    requires Inv(sum, s) && Ordered(files, start, s) && (e.Start? ==> e.files == files)
    ensures forall p :: p in Step(sum, s, e).procs ==> p.files == files
  {
    hide Inv, Tied, Pending;
    if e.Move? && Enabled(sum, s, e.i, e.action) {
      assert Tied(s) by { InvTied(sum, s); }
      MoveOn(sum, s, e.i, e.action);
      assert s.procs[e.i] in s.procs;
    }
  }

  /** What a step adds to the applied migrations is the next file of its instance's own list. */
  lemma {:induction false} AppliesCurrent(sum: string -> string, s: State, e: Event)
    requires Inv(sum, s) && Step(sum, s, e).applied != s.applied
    ensures e.Move? && e.i < |s.procs| && AppliesNext(sum, s, Step(sum, s, e).applied, e.i)
  {
    hide AppliedOnce;
    assert PastFiles(sum, s.ledger, s.procs[e.i]);
  }

  lemma {:induction false} StepOrdered(sum: string -> string, files: seq<File>, start: Ledger, s: State, e: Event)
    requires Inv(sum, s) && RowsExact(start, s) && Ordered(files, start, s) && DistinctVersions(files)
    requires e.Start? ==> e.files == files
    ensures Ordered(files, start, Step(sum, s, e))
  {
    hide *;
    StepFiles(sum, files, start, s, e);
    if Step(sum, s, e).applied == s.applied {
      SameOrdered(files, start, s, Step(sum, s, e));
    } else {
      AppliesCurrent(sum, s, e);
      GrowsOrdered(sum, files, start, s, Step(sum, s, e), e.i);
    }
  }

  lemma {:induction false} OrderedRun(sum: string -> string, files: seq<File>, start: Ledger, s: State, run: seq<Event>)
    requires DistinctVersions(files) && forall e :: e in run && e.Start? ==> e.files == files
    requires Inv(sum, s) && RowsExact(start, s) && Ordered(files, start, s)
    ensures Ordered(files, start, After(sum, s, run)) && RowsExact(start, After(sum, s, run))
    decreases |run|
  {
    if run != [] {
      var s' := Step(sum, s, run[0]);
      assert run[0] in run && forall e :: e in run[1..] ==> e in run;
      StepInv(sum, s, run[0]);
      StepRows(sum, start, s, run[0]);
      StepOrdered(sum, files, start, s, run[0]);
      hide Step, Inv, RowsExact, Ordered, After;
      OrderedRun(sum, files, start, s', run[1..]);
      AfterUnfolds(sum, s, run);
    }
  }

  lemma {:induction false} InitialOrdered(sum: string -> string, files: seq<File>, s: State)
    requires Initial(s)
    ensures Inv(sum, s) && RowsExact(s.ledger, s) && Ordered(files, s.ledger, s)
  {
    InitialInv(sum, s);
    assert OrderedFor(files, s.ledger, s, 0);
  }

  /** When every file is recorded, everything pending has been applied. */
  lemma {:induction false} AllApplied(sum: string -> string, files: seq<File>, start: Ledger, s: State, i: nat)
    requires DistinctVersions(files) && RowsExact(start, s) && Ordered(files, start, s) && PastIsRecorded(sum, s)
    requires i < |s.procs| && Done(s.procs[i])
    ensures FilesOf(s.applied) == Pending(files, start)
  {
    var n, p := SomeOrder(files, start, s), s.procs[i];
    assert p in s.procs && PastFiles(sum, s.ledger, p);
    forall m | n <= m < |files|
      ensures files[m].version in start
    {
      RecordedFromStart(sum, files, start, s, n, m);
    }
    hide RowsExact, DistinctVersions, IsRecorded, PastFiles;
    NothingPending(files, start, n, |files|);
    assert files[..|files|] == files;
  }

  /**
    Instances that all run the same files, from any ledger. At any moment of any run the migrations
    applied are the first ones that the ledger lacked at the start, in file order and without a gap;
    and all of them once an instance has returned without an error.
   */
  lemma {:induction false} FileOrder(sum: string -> string, files: seq<File>, s: State, run: seq<Event>)
    requires Initial(s) && DistinctVersions(files) && forall e :: e in run && e.Start? ==> e.files == files
    ensures var now := After(sum, s, run);
            && (exists n :: 0 <= n <= |files| && FilesOf(now.applied) == Pending(files[..n], s.ledger))
            && (forall i :: 0 <= i < |now.procs| && Done(now.procs[i]) ==> FilesOf(now.applied) == Pending(files, s.ledger))
  {
    var now := After(sum, s, run);
    InitialOrdered(sum, files, s);
    OrderedRun(sum, files, s.ledger, s, run);
    EveryRun(sum, s, run);
    assert PastIsRecorded(sum, now);
    var n := SomeOrder(files, s.ledger, now);
    hide After, PastIsRecorded, RowsExact, Ordered, DistinctVersions, Done, Pending, FilesOf;
    forall i | 0 <= i < |now.procs| && Done(now.procs[i])
      ensures FilesOf(now.applied) == Pending(files, s.ledger)
    {
      AllApplied(sum, files, s.ledger, now, i);
    }
  }

  // ----- Order for instances of different releases -----

  /** The migration is the file at its position of its instance's list, passed by now, with everything before it recorded. */
  ghost predicate OwnFile(sum: string -> string, s: State, a: Applied) {
    && a.instance < |s.procs|
    && var p := s.procs[a.instance];
       && a.position < |p.files| && p.files[a.position] == File(a.version, a.content)
       && (a.position < p.next || (a.position == p.next && p.phase == Failed))
       && forall m :: 0 <= m < a.position ==> IsRecorded(sum, s.ledger, p.files[m])
  }

  /** What each instance has applied goes strictly forward through its own list. */
  ghost predicate OwnOrdered(sum: string -> string, s: State) {
    && (forall a :: a in s.applied ==> OwnFile(sum, s, a))
    && (forall j, k :: 0 <= j < k < |s.applied| && s.applied[j].instance == s.applied[k].instance ==>
          s.applied[j].position < s.applied[k].position)
  }

  lemma {:induction false} OwnFileStays(sum: string -> string, s: State, e: Event, a: Applied)
    requires Tied(s) && OwnFile(sum, s, a)
    ensures OwnFile(sum, Step(sum, s, e), a)
  {
    var s' := Step(sum, s, e);
    StepGrows(sum, s, e);
    if e.Move? && Enabled(sum, s, e.i, e.action) { MoveOn(sum, s, e.i, e.action); }
    var p := s.procs[a.instance];
    hide Tied, LedgerWith, AppliedWith;
    forall m | 0 <= m < a.position
      ensures IsRecorded(sum, s'.ledger, p.files[m])
    {
      StaysRecorded(sum, s.ledger, s'.ledger, p.files[m]);
    }
  }

  lemma {:induction false} NewOwnFile(sum: string -> string, s: State, e: Event)
    requires Inv(sum, s) && e.Move? && e.i < |s.procs| && AppliesNext(sum, s, Step(sum, s, e).applied, e.i)
    ensures OwnFile(sum, Step(sum, s, e), Step(sum, s, e).applied[|s.applied|])
  {
    var s', p := Step(sum, s, e), s.procs[e.i];
    InvTied(sum, s);
    StepGrows(sum, s, e);
    hide Tied, Inv;
    forall m | 0 <= m < p.next
      ensures IsRecorded(sum, s'.ledger, p.files[m])
    {
      StaysRecorded(sum, s.ledger, s'.ledger, p.files[m]);
    }
  }

  lemma {:induction false} StepOwnOrdered(sum: string -> string, s: State, e: Event)
    requires Inv(sum, s) && OwnOrdered(sum, s)
    ensures OwnOrdered(sum, Step(sum, s, e))
  {
    var s' := Step(sum, s, e);
    InvTied(sum, s);
    hide Inv, Step, Tied;
    forall a | a in s.applied
      ensures OwnFile(sum, s', a)
    {
      OwnFileStays(sum, s, e, a);
    }
    if s'.applied != s.applied {
      AppliesCurrent(sum, s, e);
      NewOwnFile(sum, s, e);
      hide IsRecorded;
      var added := s'.applied[|s.applied|];
      forall a | a in s.applied && a.instance == added.instance
        ensures a.position < added.position
      {
        assert OwnFile(sum, s, a);
      }
    }
  }

  lemma {:induction false} OwnOrderedRun(sum: string -> string, s: State, run: seq<Event>)
    requires Inv(sum, s) && OwnOrdered(sum, s)
    ensures OwnOrdered(sum, After(sum, s, run))
    decreases |run|
  {
    if run != [] {
      StepInv(sum, s, run[0]);
      StepOwnOrdered(sum, s, run[0]);
      hide Step, Inv, OwnOrdered, After;
      OwnOrderedRun(sum, Step(sum, s, run[0]), run[1..]);
      AfterUnfolds(sum, s, run);
    }
  }

  /**
    Instances with any lists of files, of different releases too. The migrations an instance applied
    stand at strictly increasing positions of its own list; and whenever one is applied, its version
    had no row, while everything before it in that list was recorded with the instance's checksums.
   */
  lemma {:induction false} OwnFileOrder(sum: string -> string, s: State, run: seq<Event>, e: Event)
    requires Initial(s)
    ensures OwnOrdered(sum, After(sum, s, run))
    ensures var now := After(sum, s, run);
            Step(sum, now, e).applied != now.applied ==>
              e.Move? && e.i < |now.procs| && AppliesNext(sum, now, Step(sum, now, e).applied, e.i)
  {
    InitialInv(sum, s);
    EveryRun(sum, s, run);
    OwnOrderedRun(sum, s, run);
    var now := After(sum, s, run);
    hide After, Inv, OwnOrdered, Step;
    if Step(sum, now, e).applied != now.applied {
      AppliesCurrent(sum, now, e);
    }
  }

  // ----- Finishing -----

  /** The moves of one transaction that nothing disturbs, by what it finds. */
  function Turn(stored: Stored): seq<Action> {
    match stored
    case Missing => [Begin, Lock, Look, Run, Record, Commit]
    case NoChecksum => [Begin, Lock, Look, Backfill, Commit]
    case Checksum(_) => [Begin, Lock, Look, Commit]
  }

  function Moves(i: nat, actions: seq<Action>): seq<Event> {
    if actions == [] then [] else [Move(i, actions[0])] + Moves(i, actions[1..])
  }

  lemma {:induction false} AfterConcat(sum: string -> string, s: State, a: seq<Event>, b: seq<Event>)
    ensures After(sum, s, a + b) == After(sum, After(sum, s, a), b)
    decreases |a|
  {
    if a == [] {
      assert a + b == b;
    } else {
      assert (a + b)[0] == a[0] && (a + b)[1..] == a[1..] + b;
      AfterConcat(sum, Step(sum, s, a[0]), a[1..], b);
    }
  }

  /** The file's row, if it has a checksum, has that of this content. */
  predicate Acceptable(sum: string -> string, ledger: Ledger, f: File) {
    f.version in ledger && ledger[f.version].Some? ==> IsRecorded(sum, ledger, f)
  }

  lemma {:induction false} OneMove(sum: string -> string, s: State, i: nat, actions: seq<Action>)
    requires actions != []
    ensures After(sum, s, Moves(i, actions)) == After(sum, Step(sum, s, Move(i, actions[0])), Moves(i, actions[1..]))
  {
    var run := Moves(i, actions);
    assert run[0] == Move(i, actions[0]) && run[1..] == Moves(i, actions[1..]);
  }

  /** The first three moves, from rest with the lock free. */
  lemma {:induction false} ToLook(sum: string -> string, s: State, i: nat, rest: seq<Action>)
    requires i < |s.procs| && s.procs[i].phase == Idle && s.procs[i].next < |s.procs[i].files| && s.lock == None
    ensures var p := s.procs[i];
            var looked := State(s.ledger, s.applied, Some(i),
                                s.procs[i := p.(phase := Looked(Lookup(s.ledger, Current(p).version)))]);
            After(sum, s, Moves(i, [Begin, Lock, Look] + rest)) == After(sum, looked, Moves(i, rest))
  {
    hide Lookup, Moves, After;
    var actions := [Begin, Lock, Look] + rest;
    assert actions[1..] == [Lock, Look] + rest && ([Lock, Look] + rest)[1..] == [Look] + rest && ([Look] + rest)[1..] == rest;
    OneMove(sum, s, i, actions);
    var begun := Step(sum, s, Move(i, Begin));
    OneMove(sum, begun, i, [Lock, Look] + rest);
    var locked := Step(sum, begun, Move(i, Lock));
    OneMove(sum, locked, i, [Look] + rest);
    var looked := Step(sum, locked, Move(i, Look));
    assert looked.procs == s.procs[i := looked.procs[i]];
  }

  lemma {:induction false} FromMissing(sum: string -> string, s: State, i: nat)
    requires i < |s.procs| && s.procs[i].phase == Looked(Missing) && s.procs[i].next < |s.procs[i].files|
    ensures After(sum, s, Moves(i, [Run, Record, Commit]))
            == After(sum, s.(procs := s.procs[i := s.procs[i].(phase := Recorded)]), Moves(i, [Commit]))
  {
    hide Moves, After, LedgerWith, AppliedWith;
    var ran := s.(procs := s.procs[i := s.procs[i].(phase := Ran)]);
    assert [Run, Record, Commit][1..] == [Record, Commit] && [Record, Commit][1..] == [Commit];
    OneMove(sum, s, i, [Run, Record, Commit]);
    assert Step(sum, s, Move(i, Run)) == ran;
    OneMove(sum, ran, i, [Record, Commit]);
    assert ran.procs[i := s.procs[i].(phase := Recorded)] == s.procs[i := s.procs[i].(phase := Recorded)];
  }

  lemma {:induction false} FromNoChecksum(sum: string -> string, s: State, i: nat)
    requires i < |s.procs| && s.procs[i].phase == Looked(NoChecksum) && s.procs[i].next < |s.procs[i].files|
    ensures After(sum, s, Moves(i, [Backfill, Commit]))
            == After(sum, s.(procs := s.procs[i := s.procs[i].(phase := Backfilled)]), Moves(i, [Commit]))
  {
    hide Moves, After, LedgerWith, AppliedWith;
    assert [Backfill, Commit][1..] == [Commit];
    OneMove(sum, s, i, [Backfill, Commit]);
  }

  lemma {:induction false} LastCommit(sum: string -> string, s: State, i: nat)
    requires i < |s.procs| && s.procs[i].next < |s.procs[i].files| && CanCommit(sum, s.procs[i])
    ensures var p := s.procs[i];
            After(sum, s, Moves(i, [Commit]))
            == State(LedgerWith(sum, s.ledger, p), AppliedWith(s.applied, p, i), None,
                     s.procs[i := p.(phase := Idle, next := p.next + 1)])
  {
    var none: seq<Action> := [];
    assert [Commit][1..] == none && Moves(i, none) == [] && forall q :: After(sum, q, []) == q;
    hide Moves, After, LedgerWith, AppliedWith;
    OneMove(sum, s, i, [Commit]);
  }

  lemma {:induction false} FromLook(sum: string -> string, s: State, i: nat)
    requires i < |s.procs| && s.procs[i].phase.Looked? && s.procs[i].next < |s.procs[i].files| && s.lock == Some(i)
    requires s.procs[i].phase.stored == Lookup(s.ledger, Current(s.procs[i]).version)
    requires Acceptable(sum, s.ledger, Current(s.procs[i]))
    ensures var p := s.procs[i];
            var s' := After(sum, s, Moves(i, Turn(p.phase.stored)[3..]));
            && s'.ledger == s.ledger[Current(p).version := Some(sum(Current(p).content))]
            && s'.lock == None && s'.procs == s.procs[i := p.(phase := Idle, next := p.next + 1)]
  {
    hide Moves, After, Step;
    var p := s.procs[i];
    match p.phase.stored
    case Missing =>
      assert Turn(p.phase.stored)[3..] == [Run, Record, Commit];
      FromMissing(sum, s, i);
      LastCommit(sum, s.(procs := s.procs[i := p.(phase := Recorded)]), i);
    case NoChecksum =>
      assert Turn(p.phase.stored)[3..] == [Backfill, Commit];
      FromNoChecksum(sum, s, i);
      LastCommit(sum, s.(procs := s.procs[i := p.(phase := Backfilled)]), i);
    case Checksum(_) =>
      assert Turn(p.phase.stored)[3..] == [Commit];
      LastCommit(sum, s, i);
  }

  /** One undisturbed transaction takes the instance past its file. */
  lemma {:induction false} OneTurn(sum: string -> string, s: State, i: nat)
    requires i < |s.procs| && s.procs[i].phase == Idle && s.procs[i].next < |s.procs[i].files| && s.lock == None
    requires Acceptable(sum, s.ledger, Current(s.procs[i]))
    ensures var p := s.procs[i];
            var s' := After(sum, s, Moves(i, Turn(Lookup(s.ledger, Current(p).version))));
            && s'.ledger == s.ledger[Current(p).version := Some(sum(Current(p).content))]
            && s'.lock == None && s'.procs == s.procs[i := p.(next := p.next + 1)]
  {
    var p := s.procs[i];
    var stored := Lookup(s.ledger, Current(p).version);
    var looked := State(s.ledger, s.applied, Some(i), s.procs[i := p.(phase := Looked(stored))]);
    var rest := Turn(stored)[3..];
    assert Turn(stored) == [Begin, Lock, Look] + rest;
    assert looked.procs[i].phase.stored == Lookup(looked.ledger, Current(looked.procs[i]).version);
    hide Turn, Moves, After, Lookup, Step;
    ToLook(sum, s, i, rest);
    hide Acceptable, IsRecorded;
    FromLook(sum, looked, i);
  }

  /** Nothing ahead of the instance has the wrong checksum. */
  ghost predicate ClearAhead(sum: string -> string, ledger: Ledger, p: Proc) {
    forall k :: p.next <= k < |p.files| ==> Acceptable(sum, ledger, p.files[k])
  }

  lemma {:induction false} ClearRun(sum: string -> string, s: State, i: nat) returns (run: seq<Event>)
    requires i < |s.procs| && s.procs[i].phase == Idle && s.procs[i].next <= |s.procs[i].files| && s.lock == None
    requires DistinctVersions(s.procs[i].files) && ClearAhead(sum, s.ledger, s.procs[i])
    ensures i < |After(sum, s, run).procs| && Done(After(sum, s, run).procs[i])
    decreases |s.procs[i].files| - s.procs[i].next
  {
    var p := s.procs[i];
    run := [];
    if p.next < |p.files| {
      var turn := Moves(i, Turn(Lookup(s.ledger, Current(p).version)));
      OneTurn(sum, s, i);
      var s' := After(sum, s, turn);
      hide Lookup, Turn, Moves, After;
      var rest := ClearRun(sum, s', i);
      run := turn + rest;
      AfterConcat(sum, s, turn, rest);
    }
  }

  /** Whoever holds the lock can fail and release it. */
  lemma {:induction false} Unlocked(sum: string -> string, s: State, i: nat) returns (run: seq<Event>)
    requires Tied(s) && i < |s.procs| && s.procs[i].phase == Idle
    ensures var s' := After(sum, s, run);
            && s'.lock == None && s'.ledger == s.ledger && i < |s'.procs| && s'.procs[i] == s.procs[i]
  {
    run := [];
    if s.lock.Some? {
      run := [Move(s.lock.value, Fail)];
      assert run[1..] == [];
      FailureIsLocal(sum, s, s.lock.value);
    }
  }

  /** An instance at rest can finish exactly when no file ahead of it is recorded with a different checksum. */
  lemma {:induction false} CanFinish(sum: string -> string, s: State, i: nat)
    requires Inv(sum, s) && i < |s.procs| && s.procs[i].phase == Idle && DistinctVersions(s.procs[i].files)
    ensures (exists run :: i < |After(sum, s, run).procs| && Done(After(sum, s, run).procs[i]))
            <==> ClearAhead(sum, s.ledger, s.procs[i])
  {
    assert PastFiles(sum, s.ledger, s.procs[i]);
    if ClearAhead(sum, s.ledger, s.procs[i]) {
      InvTied(sum, s);
      hide Inv, ClearAhead, After, DistinctVersions;
      var freeing := Unlocked(sum, s, i);
      var finishing := ClearRun(sum, After(sum, s, freeing), i);
      AfterConcat(sum, s, freeing, finishing);
    } else {
      var k :| s.procs[i].next <= k < |s.procs[i].files| && !Acceptable(sum, s.ledger, s.procs[i].files[k]);
      forall run
        ensures i < |After(sum, s, run).procs| && !Done(After(sum, s, run).procs[i])
      {
        MismatchStops(sum, s, run, i, k);
      }
    }
  }
}
