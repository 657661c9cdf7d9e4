/**
  Role changes and deletions on PostgreSQL: transactions that lock, read the user, count the admins
  if need be, write and commit, interleaved with each other and with single-statement writes.
 */
module LastAdmin {
  import opened Common
  import opened UserTable

  /** role is the role read; n the number of admins counted, 0 if the change needs no count. */
  datatype Phase =
    | Begun
    | Locked
    | Reading(role: string)
    | Counted(role: string, n: nat)
    | Written(role: string, n: nat)
    | Finished(outcome: Result<(), Failure>)

  datatype Failure = Refused(error: UserError) | Broken

  /** One call of UpdateUserRole (a RoleOp) or DeleteUser (a DeleteOp). */
  datatype Tx = Tx(op: Op, phase: Phase)

  /** The committed users table, the advisory lock, and all calls so far. */
  datatype State = State(table: Users, lock: Option<nat>, txs: seq<Tx>)

  datatype Action = Lock | Read | Count | Write | Commit | CommitLost | Abort

  /** A call starts, call i makes a move, or a single statement writes and commits at once. */
  datatype Event =
    | Start(op: Op)
    | Move(i: nat, action: Action)
    | Statement(op: Op)
    | Bootstrap(hash: string, email: string, id: string, now: int)

  predicate Guarded(op: Op) {
    op.RoleOp? || op.DeleteOp?
  }

  /** The change takes the admin role away from a user who has it. */
  predicate Removes(op: Op, role: string) {
    role == ROLE_ADMIN && (op.DeleteOp? || (op.RoleOp? && op.role != ROLE_ADMIN))
  }

  predicate Holds(phase: Phase) {
    !phase.Begun? && !phase.Finished?
  }

  predicate Enabled(s: State, i: nat, action: Action) {
    i < |s.txs| && Guarded(s.txs[i].op) &&
    var tx := s.txs[i];
    match action
    case Lock => tx.phase.Begun? && s.lock == None
    case Read => tx.phase.Locked?
    case Count => tx.phase.Reading? && Removes(tx.op, tx.phase.role)
    case Write => (tx.phase.Reading? && !Removes(tx.op, tx.phase.role)) || tx.phase.Counted?
    case Commit => tx.phase.Written?
    case CommitLost => tx.phase.Written?
    case Abort => !tx.phase.Finished?
  }

  /** Where a move takes the call; reads see the committed table. */
  function Moved(s: State, i: nat, action: Action): Phase
    requires Enabled(s, i, action)
  {
    var tx := s.txs[i];
    match action
    case Lock => Locked
    case Read =>
      if tx.op.username !in s.table then Finished(Err(Refused(UserNotFound))) else Reading(s.table[tx.op.username].role)
    case Count =>
      if |Admins(s.table)| <= 1 then Finished(Err(Refused(UserError.LastAdmin)))
      else Counted(tx.phase.role, |Admins(s.table)|)
    case Write => Written(tx.phase.role, if tx.phase.Counted? then tx.phase.n else 0)
    case Commit => Finished(Ok(()))
    case CommitLost => Finished(Err(Broken))
    case Abort => Finished(Err(Broken))
  }

  /** What the UPDATE or DELETE statement does when it takes effect. */
  function Effect(t: Users, op: Op): Users
    requires Guarded(op)
  {
    match op
    case RoleOp(username, role) => if username in t then t[username := t[username].(role := role)] else t
    case DeleteOp(username) => t - {username}
  }

  /** INSERT ... ON CONFLICT (username) DO NOTHING */
  function Bootstrapped(t: Users, hash: string, email: string, id: string, now: int): Users {
    if DEFAULT_ADMIN in t then t else t[DEFAULT_ADMIN := UserRec(id, DEFAULT_ADMIN, hash, email, ROLE_ADMIN, now, 0)]
  }

  ghost function Next(s: State, e: Event): State {
    match e
    case Start(op) =>
      if !Guarded(op) then s
      else
        var phase := if op.RoleOp? && !ValidRole(op.role) then Finished(Err(Refused(InvalidRole))) else Begun;
        s.(txs := s.txs + [Tx(op, phase)])
    case Move(i, action) =>
      if !Enabled(s, i, action) then s
      else
        var tx, phase := s.txs[i], Moved(s, i, action);
        State(
          if action == Commit || action == CommitLost then Effect(s.table, tx.op) else s.table,
          if action == Lock then Some(i) else if Holds(tx.phase) && phase.Finished? then None else s.lock,
          s.txs[i := tx.(phase := phase)])
    case Statement(op) =>
      if Guarded(op) then s else s.(table := Step(s.table, op).0)
    case Bootstrap(hash, email, id, now) => s.(table := Bootstrapped(s.table, hash, email, id, now))
  }

  ghost function Final(s: State, run: seq<Event>): State
    decreases |run|
  {
    if run == [] then s else Final(Next(s, run[0]), run[1..])
  }

  // ----- The invariant -----

  /**
    What a call has read, tied to the committed table as it is now: the user still has the role
    read, and at least as many admins are left as were counted.
   */
  ghost predicate TxTied(s: State, i: nat)
    requires i < |s.txs|
  {
    var tx := s.txs[i];
    && Guarded(tx.op) && (tx.op.RoleOp? && !tx.phase.Finished? ==> ValidRole(tx.op.role))
    && (Holds(tx.phase) ==> s.lock == Some(i))
    && (tx.phase.Reading? || tx.phase.Counted? || tx.phase.Written? ==>
          tx.op.username in s.table && s.table[tx.op.username].role == tx.phase.role)
    && (tx.phase.Counted? ==> 1 < tx.phase.n <= |Admins(s.table)|)
    && (tx.phase.Written? && Removes(tx.op, tx.phase.role) ==> 1 < tx.phase.n <= |Admins(s.table)|)
  }

  ghost predicate Tied(s: State) {
    forall i :: 0 <= i < |s.txs| ==> TxTied(s, i)
  }

  /** Single statements neither remove a user nor change a role. */
  lemma {:induction false} StatementKeeps(t: Users, op: Op)
    requires !Guarded(op)
    ensures var t' := Step(t, op).0; forall n :: n in t ==> n in t' && t'[n].role == t[n].role
  {
  }

  lemma {:induction false} MoreAdmins(t: Users, t': Users)
    requires forall n :: n in t ==> n in t' && t'[n].role == t[n].role
    ensures Admins(t) <= Admins(t') && |Admins(t)| <= |Admins(t')|
  {
    assert Admins(t') == Admins(t) + (Admins(t') - Admins(t));
    assert |Admins(t')| == |Admins(t)| + |Admins(t') - Admins(t)|;
  }

  lemma {:induction false} TiedOverGrowth(s: State, s': State)
    requires Tied(s) && s'.lock == s.lock && |s'.txs| >= |s.txs|
    requires forall n :: n in s.table ==> n in s'.table && s'.table[n].role == s.table[n].role
    requires forall i :: 0 <= i < |s.txs| ==> s'.txs[i] == s.txs[i]
    ensures forall i :: 0 <= i < |s.txs| ==> TxTied(s', i)
  {
    MoreAdmins(s.table, s'.table);
    forall i | 0 <= i < |s.txs|
      ensures TxTied(s', i)
    {
      assert TxTied(s, i);
    }
  }

  lemma {:induction false} MoveTied(s: State, i: nat, action: Action)
    requires Tied(s) && Enabled(s, i, action)
    ensures Tied(Next(s, Move(i, action)))
  {
    var s' := Next(s, Move(i, action));
    assert TxTied(s, i);
    forall j | 0 <= j < |s.txs|
      ensures TxTied(s', j)
    {
      assert TxTied(s, j);
    }
  }

  lemma {:induction false} NextTied(s: State, e: Event)
    requires Tied(s)
    ensures Tied(Next(s, e))
  {
    var s' := Next(s, e);
    match e
    case Start(op) =>
      TiedOverGrowth(s, s');
    case Move(i, action) =>
      if Enabled(s, i, action) { MoveTied(s, i, action); }
    case Statement(op) =>
      if !Guarded(op) { StatementKeeps(s.table, op); }
      TiedOverGrowth(s, s');
    case Bootstrap(_, _, _, _) =>
      TiedOverGrowth(s, s');
  }

  // ----- What the protocol achieves -----

  /** A commit does to the table of that moment what the guarded operation does when nothing interleaves. */
  lemma {:induction false} CommitIsAtomic(s: State, i: nat, action: Action)
    requires Tied(s) && Enabled(s, i, action) && (action == Commit || action == CommitLost)
    ensures Next(s, Move(i, action)).table == Step(s.table, s.txs[i].op).0
    ensures Step(s.table, s.txs[i].op).1 == Ok(())
  {
    assert TxTied(s, i);
  }

  /** A refusal is the guarded operation's own answer on the table of that moment, and changes nothing. */
  lemma {:induction false} RefusalIsAtomic(s: State, i: nat, action: Action)
    requires Tied(s) && Enabled(s, i, action)
    requires Moved(s, i, action).Finished? && Moved(s, i, action).outcome.Err? && Moved(s, i, action).outcome.error.Refused?
    ensures Step(s.table, s.txs[i].op) == (s.table, Err(Moved(s, i, action).outcome.error.error))
    ensures Next(s, Move(i, action)).table == s.table
  {
    assert TxTied(s, i);
  }

  /** Everything that changed the committed table, as atomic operations. */
  datatype Atom = Do(op: Op) | Boot(hash: string, email: string, id: string, now: int)

  ghost function Perform(t: Users, atoms: seq<Atom>): Users
    decreases |atoms|
  {
    if atoms == [] then t
    else
      var t' := match atoms[0]
        case Do(op) => Step(t, op).0
        case Boot(hash, email, id, now) => Bootstrapped(t, hash, email, id, now);
      Perform(t', atoms[1..])
  }

  /** The order in which the calls and statements of the run took effect. */
  ghost function Linearized(s: State, run: seq<Event>): seq<Atom>
    decreases |run|
  {
    if run == [] then []
    else
      var first := match run[0]
        case Start(_) => []
        case Move(i, action) =>
          if Enabled(s, i, action) && (action == Commit || action == CommitLost) then [Do(s.txs[i].op)] else []
        case Statement(op) => if Guarded(op) then [] else [Do(op)]
        case Bootstrap(hash, email, id, now) => [Boot(hash, email, id, now)];
      first + Linearized(Next(s, run[0]), run[1..])
  }

  /** The protocol refines the atomic operations: any interleaving leaves the table that they leave, one after another. */
  lemma {:induction false} Linearizable(s: State, run: seq<Event>)
    requires Tied(s)
    ensures Final(s, run).table == Perform(s.table, Linearized(s, run))
    decreases |run|
  {
    if run != [] {
      var e, s' := run[0], Next(s, run[0]);
      NextTied(s, e);
      if e.Move? && Enabled(s, e.i, e.action) && (e.action == Commit || e.action == CommitLost) {
        CommitIsAtomic(s, e.i, e.action);
      }
      hide Step, Tied, Bootstrapped;
      Linearizable(s', run[1..]);
      var rest := Linearized(s', run[1..]);
      match e
      case Start(_) =>
        assert Linearized(s, run) == rest;
      case Move(i, action) =>
        if Enabled(s, i, action) && (action == Commit || action == CommitLost) {
          var first := Do(s.txs[i].op);
          assert Linearized(s, run) == [first] + rest && ([first] + rest)[1..] == rest;
        } else {
          assert Linearized(s, run) == rest;
        }
      case Statement(op) =>
        if !Guarded(op) {
          assert Linearized(s, run) == [Do(op)] + rest && ([Do(op)] + rest)[1..] == rest;
        } else {
          assert Linearized(s, run) == rest;
        }
      case Bootstrap(hash, email, id, now) =>
        var first := Boot(hash, email, id, now);
        assert Linearized(s, run) == [first] + rest && ([first] + rest)[1..] == rest;
    }
  }

  /** The bootstrap leaves an admin exactly when there was one, or the name was not taken by a plain user. */
  lemma {:induction false} BootstrapExact(t: Users, hash: string, email: string, id: string, now: int)
    ensures Admins(Bootstrapped(t, hash, email, id, now)) != {} <==> Admins(t) != {} || "admin" !in t
    ensures var t' := Bootstrapped(t, hash, email, id, now);
            && (forall n :: n in t ==> n in t' && t'[n] == t[n]) && t'.Keys == t.Keys + {"admin"}
            && ("admin" !in t ==>
                 t'["admin"].role == "admin" && t'["admin"].password == hash && t'["admin"].email == email
                 && t'["admin"].id == id && t'["admin"].tokenVersion == 0)
  {
    var t' := Bootstrapped(t, hash, email, id, now);
    if DEFAULT_ADMIN !in t {
      assert DEFAULT_ADMIN in Admins(t');
    }
  }

  lemma {:induction false} NextKeepsAdmin(s: State, e: Event)
    requires Tied(s) && Admins(s.table) != {}
    ensures Admins(Next(s, e).table) != {}
  {
    match e
    case Start(_) =>
    case Move(i, action) =>
      if Enabled(s, i, action) && (action == Commit || action == CommitLost) {
        CommitIsAtomic(s, i, action);
        StepKeepsAdmin(s.table, s.txs[i].op);
        hide Step;
      }
    case Statement(op) =>
      StepKeepsAdmin(s.table, op);
    case Bootstrap(hash, email, id, now) =>
      BootstrapExact(s.table, hash, email, id, now);
  }

  /** Once there is an admin, there is one in every committed state of every interleaving. */
  lemma {:induction false} AdminStays(s: State, run: seq<Event>)
    requires Tied(s) && Admins(s.table) != {}
    ensures Admins(Final(s, run).table) != {}
    decreases |run|
  {
    if run != [] {
      NextTied(s, run[0]);
      NextKeepsAdmin(s, run[0]);
      hide Next, Admins, Tied;
      AdminStays(Next(s, run[0]), run[1..]);
    }
  }

  /** From an empty users table, every committed state after the first bootstrap has an admin. */
  lemma {:induction false} AlwaysAnAdmin(s: State, hash: string, email: string, id: string, now: int, run: seq<Event>)
    requires s.table == map[] && s.txs == []
    ensures Admins(Final(s, [Bootstrap(hash, email, id, now)] + run).table) != {}
  {
    var e := Bootstrap(hash, email, id, now);
    assert ([e] + run)[0] == e && ([e] + run)[1..] == run;
    BootstrapExact(s.table, hash, email, id, now);
    AdminStays(Next(s, e), run);
  }
}
