/** User accounts: what each store operation does to the table of users, and what every run keeps. */
module UserTable {
  import opened Common
  import Int64

  const DEFAULT_ADMIN := "admin"
  const ROLE_ADMIN := "admin"
  const ROLE_USER := "user"

  datatype UserRec = UserRec(
    id: string, username: string, password: string, email: string,
    role: string, createdAt: int, tokenVersion: int)

  /** The table, by username. */
  type Users = map<string, UserRec>

  datatype UserError = UserNotFound | UsernameExists | InvalidRole | LastAdmin | HashFailed

  predicate ValidRole(role: string) {
    role == ROLE_ADMIN || role == ROLE_USER
  }

  /** Every user is filed under its own name, IDs are unique, roles are known ones and versions are int64. */
  ghost predicate Consistent(t: Users) {
    && (forall n :: n in t ==> t[n].username == n && ValidRole(t[n].role) && Int64.Fits(t[n].tokenVersion))
    && (forall m, n :: m in t && n in t && t[m].id == t[n].id ==> m == n)
  }

  function Ids(t: Users): set<string> {
    set n | n in t :: t[n].id
  }

  function Admins(t: Users): set<string> {
    set n | n in t && t[n].role == ROLE_ADMIN
  }

  /** The name of the user with this ID. */
  ghost function ById(t: Users, id: string): (n: Option<string>)
    ensures n.Some? <==> id in Ids(t)
    ensures n.Some? ==> n.value in t && t[n.value].id == id
  {
    if id in Ids(t) then
      var n :| n in t && t[n].id == id; Some(n)
    else None
  }

  lemma {:induction false} ByIdFinds(t: Users, n: string)
    requires Consistent(t) && n in t
    ensures ById(t, t[n].id) == Some(n)
  {
  }

  // ----- Operations -----

  /** The table NewUserStorage starts with. */
  function Initial(hash: string, email: string, id: string, now: int): Users {
    map[DEFAULT_ADMIN := UserRec(id, DEFAULT_ADMIN, hash, email, ROLE_ADMIN, now, 0)]
  }

  /** hash is what bcrypt makes of the password; None when it refuses. id is the freshly generated ID. */
  function Create(t: Users, username: string, hash: Option<string>, email: string, id: string, now: int)
    : (Users, Result<UserRec, UserError>)
  {
    if username in t then (t, Err(UsernameExists))
    else if hash.None? then (t, Err(HashFailed))
    else
      var u := UserRec(id, username, hash.value, email, ROLE_USER, now, 0);
      (t[username := u], Ok(u))
  }

  function Bumped(u: UserRec): UserRec {
    u.(tokenVersion := Int64.Wrap(u.tokenVersion + 1))
  }

  ghost function UpdatePassword(t: Users, id: string, hash: Option<string>): (Users, Result<(), UserError>) {
    if hash.None? then (t, Err(HashFailed))
    else
      match ById(t, id)
      case None => (t, Err(UserNotFound))
      case Some(n) => (t[n := Bumped(t[n].(password := hash.value))], Ok(()))
  }

  ghost function RevokeTokens(t: Users, id: string): (Users, Result<(), UserError>) {
    match ById(t, id)
    case None => (t, Err(UserNotFound))
    case Some(n) => (t[n := Bumped(t[n])], Ok(()))
  }

  function UpdateUserRole(t: Users, username: string, role: string): (Users, Result<(), UserError>) {
    if username !in t then (t, Err(UserNotFound))
    else if !ValidRole(role) then (t, Err(InvalidRole))
    else if t[username].role == ROLE_ADMIN && role != ROLE_ADMIN && |Admins(t)| <= 1 then (t, Err(LastAdmin))
    else (t[username := t[username].(role := role)], Ok(()))
  }

  function DeleteUser(t: Users, username: string): (Users, Result<(), UserError>) {
    if username !in t then (t, Err(UserNotFound))
    else if t[username].role == ROLE_ADMIN && |Admins(t)| <= 1 then (t, Err(LastAdmin))
    else (t - {username}, Ok(()))
  }

  // ----- Runs -----

  datatype Op =
    | CreateOp(username: string, hash: Option<string>, email: string, id: string, now: int)
    | PasswordOp(userID: string, newHash: Option<string>)
    | RevokeOp(userID: string)
    | RoleOp(username: string, role: string)
    | DeleteOp(username: string)

  ghost function Step(t: Users, op: Op): (Users, Result<(), UserError>) {
    match op
    case CreateOp(username, hash, email, id, now) =>
      var (t', r) := Create(t, username, hash, email, id, now);
      (t', if r.Ok? then Ok(()) else Err(r.error))
    case PasswordOp(id, hash) => UpdatePassword(t, id, hash)
    case RevokeOp(id) => RevokeTokens(t, id)
    case RoleOp(username, role) => UpdateUserRole(t, username, role)
    case DeleteOp(username) => DeleteUser(t, username)
  }

  ghost function After(t: Users, run: seq<Op>): Users
    decreases |run|
  {
    if run == [] then t else After(Step(t, run[0]).0, run[1..])
  }

  /** No ID is generated twice, nor one that was ever in use. */
  ghost predicate FreshIds(used: set<string>, run: seq<Op>)
    decreases |run|
  {
    run != [] ==>
      && (run[0].CreateOp? ==> run[0].id !in used)
      && FreshIds(if run[0].CreateOp? then used + {run[0].id} else used, run[1..])
  }

  function UsedAfter(used: set<string>, op: Op): set<string> {
    if op.CreateOp? then used + {op.id} else used
  }

  /** What every reachable table has: consistency, and at least one admin. */
  ghost predicate Healthy(t: Users) {
    Consistent(t) && Admins(t) != {}
  }

  lemma {:induction false} AtMostOne(s: set<string>, x: string)
    requires x in s
    ensures |s| <= 1 <==> s == {x}
  {
    assert s == {x} + (s - {x});
    if |s| <= 1 {
      assert |s - {x}| == 0;
    }
  }

  /** The guard refuses exactly the changes that would leave no admin. */
  lemma {:induction false} LastAdminExact(t: Users, username: string, role: string)
    requires username in t && ValidRole(role)
    ensures UpdateUserRole(t, username, role).1 == Err(LastAdmin)
            <==> Admins(t) != {} && Admins(t[username := t[username].(role := role)]) == {}
    ensures DeleteUser(t, username).1 == Err(LastAdmin)
            <==> Admins(t) != {} && Admins(t - {username}) == {}
  {
    var demoted, deleted := Admins(t[username := t[username].(role := role)]), Admins(t - {username});
    assert deleted == Admins(t) - {username};
    assert demoted == if role == ROLE_ADMIN then Admins(t) + {username} else Admins(t) - {username};
    if username in Admins(t) {
      AtMostOne(Admins(t), username);
    }
  }

  // ----- What each operation means -----

  /** Everybody but the named user is as before, and nobody else came or went. */
  ghost predicate OthersSame(t: Users, t': Users, username: string) {
    && t'.Keys <= t.Keys + {username}
    && forall n :: n in t && n != username ==> n in t' && t'[n] == t[n]
  }

  /** The store starts with one user, an administrator named admin. */
  lemma {:induction false} InitialExactly(hash: string, email: string, id: string, now: int)
    ensures var t := Initial(hash, email, id, now);
            && t.Keys == {"admin"} && t["admin"].username == "admin" && t["admin"].role == "admin"
            && t["admin"].password == hash && t["admin"].email == email && t["admin"].id == id
            && t["admin"].createdAt == now && t["admin"].tokenVersion == 0
  {
  }

  /** A creation succeeds exactly for a free name and a password that was hashed; the new user is a plain user. */
  lemma {:induction false} CreateExactly(t: Users, username: string, hash: Option<string>, email: string, id: string, now: int)
    ensures var (t', r) := Create(t, username, hash, email, id, now);
            && (r.Ok? <==> username !in t && hash.Some?)
            && (r.Ok? ==>
                 && username in t' && r.value == t'[username] && OthersSame(t, t', username)
                 && var u := t'[username];
                    && u.username == username && u.password == hash.value && u.email == email && u.id == id
                    && u.role == "user" && u.createdAt == now && u.tokenVersion == 0)
            && (r.Err? ==> t' == t && r.error == if username in t then UsernameExists else HashFailed)
    ensures Admins(Create(t, username, hash, email, id, now).0) == Admins(t)
  {
  }

  /** A password change of an existing user succeeds exactly if the new one was hashed; it replaces hash and version only. */
  lemma {:induction false} PasswordExactly(t: Users, n: string, hash: Option<string>)
    requires Consistent(t) && n in t
    ensures var (t', r) := UpdatePassword(t, t[n].id, hash);
            if hash.Some? then
              && r == Ok(()) && t'.Keys == t.Keys && OthersSame(t, t', n)
              && t'[n].password == hash.value && t'[n].tokenVersion == Int64.Wrap(t[n].tokenVersion + 1)
              && t'[n].id == t[n].id && t'[n].username == t[n].username && t'[n].email == t[n].email
              && t'[n].role == t[n].role && t'[n].createdAt == t[n].createdAt
            else r == Err(HashFailed) && t' == t
  {
    ByIdFinds(t, n);
  }

  /** A revocation for an existing user moves its version only. */
  lemma {:induction false} RevokeExactly(t: Users, n: string)
    requires Consistent(t) && n in t
    ensures var (t', r) := RevokeTokens(t, t[n].id);
            && r == Ok(()) && t'.Keys == t.Keys && OthersSame(t, t', n)
            && t'[n].tokenVersion == Int64.Wrap(t[n].tokenVersion + 1)
            && t'[n].id == t[n].id && t'[n].username == t[n].username && t'[n].email == t[n].email
            && t'[n].role == t[n].role && t'[n].createdAt == t[n].createdAt && t'[n].password == t[n].password
  {
    ByIdFinds(t, n);
  }

  /** For an ID that nobody has, neither finds a user. */
  lemma {:induction false} UnknownID(t: Users, id: string, hash: Option<string>)
    requires forall n :: n in t ==> t[n].id != id
    ensures RevokeTokens(t, id) == (t, Err(UserNotFound))
    ensures hash.Some? ==> UpdatePassword(t, id, hash) == (t, Err(UserNotFound))
  {
  }

  ghost predicate OtherAdmin(t: Users, username: string) {
    exists n :: n in t && n != username && t[n].role == "admin"
  }

  lemma {:induction false} SoleAdmin(t: Users, username: string)
    requires username in t && t[username].role == "admin"
    ensures |Admins(t)| <= 1 <==> !OtherAdmin(t, username)
  {
    AtMostOne(Admins(t), username);
    if n :| n in t && n != username && t[n].role == "admin" {
      assert n in Admins(t);
    }
  }

  /**
    A role change succeeds exactly for an existing user, a known role, and if it does not take the
    role from the only administrator; it changes that user's role and nothing else.
   */
  lemma {:induction false} RoleExactly(t: Users, username: string, role: string)
    ensures var (t', r) := UpdateUserRole(t, username, role);
            var known, kept := role == "admin" || role == "user",
              username in t && (t[username].role != "admin" || role == "admin" || OtherAdmin(t, username));
            && r == (if username !in t then Err(UserNotFound) else if !known then Err(InvalidRole)
                     else if !kept then Err(LastAdmin) else Ok(()))
            && (r.Err? ==> t' == t)
            && (r.Ok? ==>
                 && t'.Keys == t.Keys && OthersSame(t, t', username)
                 && t'[username].role == role && t'[username].id == t[username].id
                 && t'[username].username == t[username].username && t'[username].password == t[username].password
                 && t'[username].email == t[username].email && t'[username].createdAt == t[username].createdAt
                 && t'[username].tokenVersion == t[username].tokenVersion)
  {
    if username in t && t[username].role == "admin" { SoleAdmin(t, username); }
    hide Admins;
  }

  /** A deletion succeeds exactly for an existing user who is not the only administrator, and removes that user alone. */
  lemma {:induction false} DeleteExactly(t: Users, username: string)
    ensures var (t', r) := DeleteUser(t, username);
            && r == (if username !in t then Err(UserNotFound)
                     else if t[username].role == "admin" && !OtherAdmin(t, username) then Err(LastAdmin) else Ok(()))
            && (r.Err? ==> t' == t)
            && (r.Ok? ==> username !in t' && OthersSame(t, t', username))
  {
    if username in t && t[username].role == "admin" { SoleAdmin(t, username); }
    hide Admins;
  }

  // ----- What every run keeps -----

  lemma {:induction false} StepKeepsAdmin(t: Users, op: Op)
    requires Admins(t) != {}
    ensures Admins(Step(t, op).0) != {}
  {
    match op
    case CreateOp(username, hash, email, id, now) =>
      assert Admins(t) <= Admins(Step(t, op).0);
    case PasswordOp(id, hash) =>
      assert Admins(t) <= Admins(Step(t, op).0);
    case RevokeOp(id) =>
      assert Admins(t) <= Admins(Step(t, op).0);
    case RoleOp(username, role) =>
      if username in t && ValidRole(role) { LastAdminExact(t, username, role); }
    case DeleteOp(username) =>
      if username in t { LastAdminExact(t, username, ROLE_USER); }
  }

  lemma {:induction false} StepKeepsConsistent(t: Users, op: Op, used: set<string>)
    requires Consistent(t) && Ids(t) <= used && (op.CreateOp? ==> op.id !in used)
    ensures Consistent(Step(t, op).0) && Ids(Step(t, op).0) <= UsedAfter(used, op)
  {
    if op.CreateOp? {
      assert forall n :: n in t ==> t[n].id in Ids(t);
    }
  }

  lemma {:induction false} StepKeepsHealthy(t: Users, op: Op)
    requires Healthy(t) && (op.CreateOp? ==> op.id !in Ids(t))
    ensures Healthy(Step(t, op).0)
  {
    StepKeepsAdmin(t, op);
    StepKeepsConsistent(t, op, Ids(t));
  }

  /** In every reachable state names and IDs are unique, roles are known, and there is an admin. */
  lemma {:induction false} EveryReachableIsHealthy(t: Users, run: seq<Op>, used: set<string>)
    requires Healthy(t) && Ids(t) <= used && FreshIds(used, run)
    ensures Healthy(After(t, run))
    decreases |run|
  {
    if run != [] {
      StepKeepsAdmin(t, run[0]);
      StepKeepsConsistent(t, run[0], used);
      EveryReachableIsHealthy(Step(t, run[0]).0, run[1..], UsedAfter(used, run[0]));
    }
  }

  lemma {:induction false} InitialIsHealthy(hash: string, email: string, id: string, now: int)
    ensures Healthy(Initial(hash, email, id, now)) && Ids(Initial(hash, email, id, now)) == {id}
  {
    assert DEFAULT_ADMIN in Admins(Initial(hash, email, id, now));
  }

  // ----- Token versions -----

  ghost function VersionOf(t: Users, id: string): Option<int> {
    match ById(t, id)
    case None => None
    case Some(n) => Some(t[n].tokenVersion)
  }

  /** The operation moves the user's token version. */
  ghost predicate Bumps(t: Users, op: Op, id: string) {
    (op.PasswordOp? || op.RevokeOp?) && op.userID == id && Step(t, op).1.Ok?
  }

  ghost function BumpCount(t: Users, run: seq<Op>, id: string): nat
    decreases |run|
  {
    if run == [] then 0
    else (if Bumps(t, run[0], id) then 1 else 0) + BumpCount(Step(t, run[0]).0, run[1..], id)
  }

  /** Some operation of the run deletes the user with this ID. */
  ghost predicate Removed(t: Users, run: seq<Op>, id: string)
    decreases |run|
  {
    run != [] &&
      var t' := Step(t, run[0]).0;
      || (run[0].DeleteOp? && id in Ids(t) && id !in Ids(t'))
      || Removed(t', run[1..], id)
  }

  lemma {:induction false} VersionAt(t: Users, id: string, n: string)
    requires Consistent(t) && n in t && t[n].id == id
    ensures VersionOf(t, id) == Some(t[n].tokenVersion)
  {
    ByIdFinds(t, n);
  }

  /** A step keeps a user's ID, and moves its version by one exactly when it bumps it. */
  lemma {:induction false} StepOnUser(t: Users, op: Op, n: string)
    requires Consistent(t) && n in t
    ensures var t' := Step(t, op).0;
            if n in t' then
              t'[n].id == t[n].id
              && t'[n].tokenVersion
                 == (if Bumps(t, op, t[n].id) then Int64.Wrap(t[n].tokenVersion + 1) else t[n].tokenVersion)
            else op.DeleteOp? && op.username == n
  {
    ByIdFinds(t, n);
    hide Int64.Wrap;
    match op
    case CreateOp(username, hash, email, id, now) =>
    case PasswordOp(id, hash) =>
      if id != t[n].id && ById(t, id).Some? { assert ById(t, id).value != n; }
    case RevokeOp(id) =>
      if id != t[n].id && ById(t, id).Some? { assert ById(t, id).value != n; }
    case RoleOp(username, role) =>
    case DeleteOp(username) =>
  }

  /** Only a creation brings an ID into the table. */
  lemma {:induction false} StepOnIds(t: Users, op: Op)
    ensures Ids(Step(t, op).0) <= Ids(t) + (if op.CreateOp? then {op.id} else {})
  {
  }

  lemma {:induction false} StepOnVersion(t: Users, op: Op, id: string, used: set<string>)
    requires Consistent(t) && Ids(t) <= used && id in used && (op.CreateOp? ==> op.id !in used)
    ensures var t' := Step(t, op).0;
            && (VersionOf(t, id).None? ==> VersionOf(t', id).None?)
            && (VersionOf(t, id).Some? && VersionOf(t', id).None? ==> op.DeleteOp?)
            && (VersionOf(t, id).Some? && VersionOf(t', id).Some? ==>
                VersionOf(t', id).value ==
                  if Bumps(t, op, id) then Int64.Wrap(VersionOf(t, id).value + 1) else VersionOf(t, id).value)
  {
    var t' := Step(t, op).0;
    StepOnIds(t, op);
    StepKeepsConsistent(t, op, used);
    if id in Ids(t) {
      var n := ById(t, id).value;
      StepOnUser(t, op, n);
      hide Step, Bumps, Int64.Wrap;
      if n in t' { VersionAt(t', id, n); }
    }
  }

  lemma {:induction false} VersionIsPresence(t: Users, id: string)
    ensures VersionOf(t, id).Some? <==> id in Ids(t)
    ensures Consistent(t) && VersionOf(t, id).Some? ==> Int64.Fits(VersionOf(t, id).value)
  {
  }

  /** Once gone, an ID never comes back. */
  lemma {:induction false} GoneForever(t: Users, run: seq<Op>, id: string, used: set<string>)
    requires Consistent(t) && Ids(t) <= used && FreshIds(used, run) && id in used
    requires VersionOf(t, id).None?
    ensures VersionOf(After(t, run), id).None? && !Removed(t, run, id)
    decreases |run|
  {
    if run != [] {
      hide Consistent, Step, VersionOf;
      StepKeepsConsistent(t, run[0], used);
      StepOnVersion(t, run[0], id, used);
      assert id !in Ids(t) by { VersionIsPresence(t, id); }
      GoneForever(Step(t, run[0]).0, run[1..], id, UsedAfter(used, run[0]));
    }
  }

  lemma {:induction false} RunUnfolds(t: Users, run: seq<Op>, id: string)
    requires run != []
    ensures var t' := Step(t, run[0]).0;
            && After(t, run) == After(t', run[1..])
            && BumpCount(t, run, id) == (if Bumps(t, run[0], id) then 1 else 0) + BumpCount(t', run[1..], id)
            && (Removed(t, run, id) <==> (run[0].DeleteOp? && id in Ids(t) && id !in Ids(t')) || Removed(t', run[1..], id))
  {
  }

  lemma {:induction false} VersionStep(t: Users, op: Op, id: string, used: set<string>)
    requires Consistent(t) && Ids(t) <= used && (op.CreateOp? ==> op.id !in used) && VersionOf(t, id).Some?
    ensures id in used
    ensures var v := VersionOf(Step(t, op).0, id);
            if v.None? then op.DeleteOp?
            else v.value == Int64.Wrap(VersionOf(t, id).value + (if Bumps(t, op, id) then 1 else 0))
  {
    VersionIsPresence(t, id);
    StepOnVersion(t, op, id, used);
  }

  /** Along any run a user is either deleted for good, or its version has moved once for each bump. */
  lemma {:induction false} VersionAlong(t: Users, run: seq<Op>, id: string, used: set<string>)
    requires Consistent(t) && Ids(t) <= used && FreshIds(used, run) && VersionOf(t, id).Some?
    ensures VersionOf(After(t, run), id) ==
      if Removed(t, run, id) then None else Some(Int64.Wrap(VersionOf(t, id).value + BumpCount(t, run, id)))
    decreases |run|
  {
    hide Consistent, Step, VersionOf, Ids, Bumps, Int64.Wrap;
    VersionIsPresence(t, id);
    if run == [] {
      assert After(t, run) == t && BumpCount(t, run, id) == 0 && !Removed(t, run, id);
      hide *;
    } else {
      var op, t' := run[0], Step(t, run[0]).0;
      StepKeepsConsistent(t, op, used);
      VersionIsPresence(t', id);
      VersionStep(t, op, id, used);
      hide *;
      if VersionOf(t', id).None? {
        GoneForever(t', run[1..], id, UsedAfter(used, op));
        RunUnfolds(t, run, id);
      } else {
        VersionAlong(t', run[1..], id, UsedAfter(used, op));
        RunUnfolds(t, run, id);
        var b := if Bumps(t, op, id) then 1 else 0;
        Int64.WrapAdd(VersionOf(t, id).value + b, BumpCount(t', run[1..], id));
      }
    }
  }

  lemma {:induction false} OnlyBearer(t: Users, op: Op, n: string)
    requires Consistent(t) && n in t && op.DeleteOp? && n !in Step(t, op).0
    ensures t[n].id in Ids(t) && t[n].id !in Ids(Step(t, op).0)
  {
  }

  /** Until it is deleted a user keeps its name and ID. */
  lemma {:induction false} NameAlong(t: Users, run: seq<Op>, n: string, used: set<string>)
    requires Consistent(t) && Ids(t) <= used && FreshIds(used, run) && n in t && !Removed(t, run, t[n].id)
    ensures n in After(t, run) && After(t, run)[n].id == t[n].id
    decreases |run|
  {
    if run != [] {
      var t' := Step(t, run[0]).0;
      StepOnUser(t, run[0], n);
      StepKeepsConsistent(t, run[0], used);
      if n !in t' { OnlyBearer(t, run[0], n); }
      hide Consistent, Step, Ids, Bumps;
      NameAlong(t', run[1..], n, UsedAfter(used, run[0]));
    }
  }

  lemma {:induction false} ReachableIsConsistent(t: Users, run: seq<Op>, used: set<string>)
    requires Consistent(t) && Ids(t) <= used && FreshIds(used, run)
    ensures Consistent(After(t, run))
    decreases |run|
  {
    if run != [] {
      StepKeepsConsistent(t, run[0], used);
      hide Consistent, Step, Ids;
      ReachableIsConsistent(Step(t, run[0]).0, run[1..], UsedAfter(used, run[0]));
    }
  }
}
