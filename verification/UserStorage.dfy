/** The in-memory user store: two maps over the same mutable user objects. */
module UserStorage {
  import opened Common
  import opened Orders
  import opened GoSort
  import opened Traversals
  import opened UserTable
  import opened UserLists
  import opened Cursors
  import Int64
  import Keyset
  import Text

  /** The fields that no method assigns after construction are constants. */
  class User {
    const id: string
    const username: string
    const email: string
    const createdAt: int
    var password: string
    var role: string
    var tokenVersion: int

    constructor (id: string, username: string, password: string, email: string, role: string, createdAt: int, tokenVersion: int)
      ensures Rec() == UserRec(id, username, password, email, role, createdAt, tokenVersion)
    {
      this.id, this.username, this.email, this.createdAt := id, username, email, createdAt;
      this.password, this.role, this.tokenVersion := password, role, tokenVersion;
    }

    function Rec(): UserRec
      reads this
    {
      UserRec(id, username, password, email, role, createdAt, tokenVersion)
    }

    method Clone() returns (u: User)
      ensures fresh(u) && u.Rec() == Rec()
    {
      u := new User(id, username, password, email, role, createdAt, tokenVersion);
    }
  }

  ghost function Recs(s: seq<User>): (r: seq<UserRec>)
    reads s
    ensures |r| == |s| && forall i :: 0 <= i < |s| ==> r[i] == s[i].Rec()
  {
    seq(|s|, i requires 0 <= i < |s| reads s => s[i].Rec())
  }

  ghost function SnapshotOf(r: Result<User, UserError>): Result<UserRec, UserError>
    reads if r.Ok? then {r.value} else {}
  {
    match r
    case Ok(u) => Ok(u.Rec())
    case Err(e) => Err(e)
  }

  lemma {:induction false} NotYetCounted(t: Users, todo: set<string>)
    ensures todo == {} ==> Admins(t) - todo == Admins(t)
    ensures t.Keys <= todo ==> |Admins(t) - todo| == 0
  {
    if t.Keys <= todo {
      assert Admins(t) - todo == {};
    }
  }

  lemma {:induction false} CountOne(t: Users, todo: set<string>, name: string)
    requires name in todo && name in t
    ensures |Admins(t) - (todo - {name})| == |Admins(t) - todo| + (if t[name].role == ROLE_ADMIN then 1 else 0)
  {
    assert Admins(t) - (todo - {name})
        == Admins(t) - todo + (if t[name].role == ROLE_ADMIN then {name} else {});
  }

  /** Both maps hold exactly the same objects, each under its own name and its own ID. */
  ghost predicate SameObjects(users: map<string, User>, byID: map<string, User>) {
    && (forall n :: n in users ==> users[n].username == n && users[n].id in byID && byID[users[n].id] == users[n])
    && (forall i :: i in byID ==> byID[i].id == i && byID[i].username in users && users[byID[i].username] == byID[i])
  }

  lemma {:induction false} SameAfterInsert(users: map<string, User>, byID: map<string, User>, u: User)
    requires SameObjects(users, byID) && u.username !in users && u.id !in byID
    ensures SameObjects(users[u.username := u], byID[u.id := u])
  {
  }

  lemma {:induction false} SameAfterRemove(users: map<string, User>, byID: map<string, User>, u: User)
    requires SameObjects(users, byID) && u.username in users && users[u.username] == u
    ensures SameObjects(users - {u.username}, byID - {u.id})
  {
  }

  function Username(u: User): string {
    u.username
  }

  lemma {:induction false} RecsCons(u: User, s: seq<User>)
    ensures Recs([u] + s) == [u.Rec()] + Recs(s)
  {
  }

  lemma {:induction false} RecsTail(s: seq<User>)
    requires s != []
    ensures Recs(s) != [] && Recs(s)[0] == s[0].Rec() && Recs(s)[1..] == Recs(s[1..])
  {
  }

  /** One unfolding of Insert. */
  lemma {:induction false} InsertUnfolds<T, K>(key: T -> K, lt: (K, K) -> bool, x: T, s: seq<T>)
    ensures Insert(key, lt, x, s)
            == if s == [] || !lt(key(s[0]), key(x)) then [x] + s else [s[0]] + Insert(key, lt, x, s[1..])
  {
  }

  /** One unfolding of SortBy. */
  lemma {:induction false} SortUnfolds<T, K>(key: T -> K, lt: (K, K) -> bool, s: seq<T>)
    ensures SortBy(key, lt, s) == if s == [] then [] else Insert(key, lt, s[0], SortBy(key, lt, s[1..]))
  {
  }

  lemma {:induction false} InsertCommutes(x: User, s: seq<User>)
    ensures Recs(Insert(Username, Text.Less, x, s)) == Insert(NameOf, Text.Less, x.Rec(), Recs(s))
  {
    assert NameOf(x.Rec()) == Username(x) && (s != [] ==> NameOf(s[0].Rec()) == Username(s[0]));
    hide *;
    InsertUnfolds(Username, Text.Less, x, s);
    InsertUnfolds(NameOf, Text.Less, x.Rec(), Recs(s));
    if s == [] {
      RecsCons(x, s);
    } else {
      RecsTail(s);
      if Text.Less(Username(s[0]), Username(x)) {
        InsertCommutes(x, s[1..]);
        RecsCons(s[0], Insert(Username, Text.Less, x, s[1..]));
      } else {
        RecsCons(x, s);
      }
    }
  }

  /** Sorting the objects by name sorts what they hold by name. */
  lemma {:induction false} SortCommutes(s: seq<User>)
    ensures Recs(SortBy(Username, Text.Less, s)) == SortBy(NameOf, Text.Less, Recs(s))
  {
    hide *;
    SortUnfolds(Username, Text.Less, s);
    SortUnfolds(NameOf, Text.Less, Recs(s));
    if s != [] {
      RecsTail(s);
      SortCommutes(s[1..]);
      InsertCommutes(s[0], SortBy(Username, Text.Less, s[1..]));
    }
  }

  lemma {:induction false} SortKeepsObjects(s: seq<User>)
    ensures |SortBy(Username, Text.Less, s)| == |s|
    ensures forall u :: u in SortBy(Username, Text.Less, s) ==> u in s
  {
    var r := SortBy(Username, Text.Less, s);
    assert |multiset(r)| == |multiset(s)|;
    assert forall u :: u in r ==> u in multiset(r);
    assert forall u :: u in multiset(s) ==> u in s;
  }

  lemma {:induction false} AllIn(s: seq<User>, t: seq<User>, u: seq<User>)
    requires (forall x :: x in s ==> x in t) && forall x :: x in t ==> x in u
    ensures forall i :: 0 <= i < |s| ==> s[i] in u
  {
    forall i | 0 <= i < |s|
      ensures s[i] in u
    {
      assert s[i] in s && s[i] in t;
    }
  }

  /** Where the page starts: the top for the zero cursor, else the first name after it, as sort.Search finds it. */
  predicate IsStart(sorted: seq<string>, cursor: UserCursor, start: nat) {
    if cursor.username == "" then start == 0
    else
      && start <= |sorted|
      && (start < |sorted| ==> Text.Less(cursor.username, sorted[start]))
      && (start > 0 ==> !Text.Less(cursor.username, sorted[start - 1]))
  }

  function Window<T>(sorted: seq<T>, start: nat, limit: nat): UserList<T> {
    var total := |sorted|;
    var end := if start + limit > total then total else start + limit;
    if start >= total then UserList([], total, false) else UserList(sorted[start..end], total, end < total)
  }

  lemma {:induction false} StartIsFirstAfter(
    rows: seq<UserRec>, order: seq<string>, t: Users, cursor: UserCursor, start: nat)
    requires Consistent(t) && Enumerates(rows, order, t)
    requires IsStart(Keyset.Keys(NameOf, SortBy(NameOf, Text.Less, rows)), cursor, start)
    ensures start == Keyset.FirstAfter(NameOf, Text.Less, Position(cursor), SortBy(NameOf, Text.Less, rows))
  {
    SortedUsers(rows, order, t);
    Text.LessStrictTotal();
    hide SortBy, Text.Less, Enumerates, Consistent;
    BoundaryIsFirstAfter(NameOf, Text.Less, SortBy(NameOf, Text.Less, rows), Position(cursor), start);
  }

  lemma {:induction false} SortedSize(rows: seq<UserRec>)
    ensures |SortBy(NameOf, Text.Less, rows)| == |rows|
  {
    var r := SortBy(NameOf, Text.Less, rows);
    assert |multiset(r)| == |multiset(rows)|;
  }

  /** Slicing the sorted traversal from the searched start answers the request. */
  lemma {:induction false} SearchedSliceLists(
    rows: seq<UserRec>, order: seq<string>, t: Users, cursor: UserCursor, limit: nat, start: nat)
    requires Consistent(t) && Enumerates(rows, order, t)
    requires IsStart(Keyset.Keys(NameOf, SortBy(NameOf, Text.Less, rows)), cursor, start)
    ensures ListsUsers(t, Position(cursor), limit, Window(SortBy(NameOf, Text.Less, rows), start, limit))
  {
    hide ListsUsers, SortBy, Text.Less, Enumerates, Consistent, IsStart, Keyset.FirstAfter;
    StartIsFirstAfter(rows, order, t, cursor, start);
    SliceListsUsers(rows, order, t, Position(cursor), limit);
    SortedSize(rows);
  }

  lemma {:induction false} SliceCommutes(all: seq<User>, start: nat, limit: nat)
    ensures var w := Window(all, start, limit);
            UserList(Recs(w.items), w.total, w.hasMore) == Window(Recs(all), start, limit)
  {
  }

  /** The same for the objects: sorting and slicing the clones is sorting and slicing what they hold. */
  lemma {:induction false} SortedObjectsList(
    snapshots: seq<User>, order: seq<string>, t: Users, cursor: UserCursor, limit: nat, start: nat)
    requires Consistent(t) && Enumerates(Recs(snapshots), order, t)
    requires IsStart(Keyset.Keys(Username, SortBy(Username, Text.Less, snapshots)), cursor, start)
    ensures var w := Window(SortBy(Username, Text.Less, snapshots), start, limit);
            ListsUsers(t, Position(cursor), limit, UserList(Recs(w.items), w.total, w.hasMore))
  {
    var all := SortBy(Username, Text.Less, snapshots);
    assert Keyset.Keys(Username, all) == Keyset.Keys(NameOf, Recs(all));
    hide ListsUsers, SortBy, Enumerates, Consistent, IsStart, Text.Less;
    SortCommutes(snapshots);
    SearchedSliceLists(Recs(snapshots), order, t, cursor, limit, start);
    SliceCommutes(all, start, limit);
    hide Window;
  }

  lemma {:induction false} NoUsersYet()
    ensures Recs([]) == [] && Enumerates<UserRec>([], [], map[])
  {
  }

  class UserStore {
    var users: map<string, User>
    var byID: map<string, User>

    /** The table this store represents. */
    ghost function View(): Users
      reads this, users.Values
    {
      map n | n in users :: users[n].Rec()
    }

    ghost predicate Valid()
      reads this, users.Values
    {
      SameObjects(users, byID) && Healthy(View())
    }

    lemma {:induction false} Indexed(id: string)
      requires SameObjects(users, byID)
      ensures byID.Values == users.Values
      ensures id in byID ==> ById(View(), id) == Some(byID[id].username)
      ensures id !in byID ==> ById(View(), id) == None && id !in Ids(View())
    {
      if id in byID {
        assert byID[id].username in View() && id in Ids(View());
      }
    }

    constructor (adminHash: string, adminEmail: string, id: string, now: int)
      ensures Valid() && View() == Initial(adminHash, adminEmail, id, now)
      ensures fresh(users.Values)
    {
      var adminUser := new User(id, DEFAULT_ADMIN, adminHash, adminEmail, ROLE_ADMIN, now, 0);
      users := map[DEFAULT_ADMIN := adminUser];
      byID := map[id := adminUser];
      new;
      InitialIsHealthy(adminHash, adminEmail, id, now);
      assert View() == Initial(adminHash, adminEmail, id, now);
    }

    /** hash is what bcrypt makes of the password, None when it refuses; id is the generated ID. */
    method CreateUser(username: string, hash: Option<string>, email: string, id: string, now: int)
      returns (r: Result<User, UserError>)
      requires Valid() && id !in byID
      modifies this
      ensures Valid()
      ensures View() == old(Create(View(), username, hash, email, id, now).0)
      ensures SnapshotOf(r) == old(Create(View(), username, hash, email, id, now).1)
      ensures r.Ok? ==> fresh(r.value) && r.value !in users.Values
      ensures forall u :: u in users.Values ==> u in old(users.Values) || fresh(u)
    {
      hide Healthy;
      if username in users {
        return Err(UsernameExists);
      }
      if hash.None? {
        return Err(HashFailed);
      }
      ghost var t, rec := View(), UserRec(id, username, hash.value, email, ROLE_USER, now, 0);
      assert Healthy(t[username := rec]) by {
        Indexed(id);
        StepKeepsHealthy(t, CreateOp(username, hash, email, id, now));
      }
      var user := new User(id, username, hash.value, email, ROLE_USER, now, 0);
      assert user.username == username && user.id == id;
      Add(user);
      hide SameObjects;
      var clone := user.Clone();
      return Ok(clone);
    }

    /** The object goes under its name and its ID. */
    method Add(user: User)
      requires SameObjects(users, byID) && user.username !in users && user.id !in byID
      modifies this
      ensures SameObjects(users, byID) && users == old(users)[user.username := user]
      ensures View() == old(View())[user.username := user.Rec()]
    {
      SameAfterInsert(users, byID, user);
      hide SameObjects;
      users := users[user.username := user];
      byID := byID[user.id := user];
    }

    method GetUser(username: string) returns (r: Result<User, UserError>)
      ensures SnapshotOf(r) == if username in View() then Ok(View()[username]) else Err(UserNotFound)
      ensures r.Ok? ==> fresh(r.value)
    {
      if username !in users {
        return Err(UserNotFound);
      }
      var clone := users[username].Clone();
      return Ok(clone);
    }

    method GetUserByID(id: string) returns (r: Result<User, UserError>)
      requires Valid()
      ensures SnapshotOf(r) == match ById(View(), id) case None => Err(UserNotFound) case Some(n) => Ok(View()[n])
      ensures r.Ok? ==> fresh(r.value)
    {
      Indexed(id);
      if id !in byID {
        return Err(UserNotFound);
      }
      var clone := byID[id].Clone();
      return Ok(clone);
    }

    /** matches is bcrypt's comparison of a hash with a password. */
    method VerifyPassword(username: string, password: string, matches: (string, string) -> bool)
      returns (r: Result<bool, UserError>)
      ensures r == if username in View() then Ok(matches(View()[username].password, password)) else Err(UserNotFound)
    {
      var user := GetUser(username);
      if user.Err? {
        return Err(user.error);
      }
      return Ok(matches(user.value.password, password));
    }

    /** Found by ID, seen by name: both maps hold the updated object. */
    method UpdatePassword(userID: string, hash: Option<string>) returns (r: Result<(), UserError>)
      requires Valid()
      modifies byID.Values
      ensures Valid() && users == old(users) && byID == old(byID)
      ensures View() == old(UserTable.UpdatePassword(View(), userID, hash).0)
      ensures r == old(UserTable.UpdatePassword(View(), userID, hash).1)
    {
      hide Healthy, ById;
      Indexed(userID);
      if hash.None? {
        return Err(HashFailed);
      }
      if userID !in byID {
        return Err(UserNotFound);
      }
      var user := byID[userID];
      ghost var t, n := View(), user.username;
      assert Healthy(t[n := Bumped(t[n].(password := hash.value))]) by { StepKeepsHealthy(t, PasswordOp(userID, hash)); }
      assert user in byID.Values && forall m :: m in users && users[m] == user ==> m == n;
      hide SameObjects;
      user.password := hash.value;
      user.tokenVersion := Int64.Wrap(user.tokenVersion + 1);
      assert View() == t[n := Bumped(t[n].(password := hash.value))];
      return Ok(());
    }

    method RevokeTokens(userID: string) returns (r: Result<(), UserError>)
      requires Valid()
      modifies byID.Values
      ensures Valid() && users == old(users) && byID == old(byID)
      ensures View() == old(UserTable.RevokeTokens(View(), userID).0)
      ensures r == old(UserTable.RevokeTokens(View(), userID).1)
    {
      hide Healthy, ById;
      Indexed(userID);
      if userID !in byID {
        return Err(UserNotFound);
      }
      var user := byID[userID];
      ghost var t, n := View(), user.username;
      assert Healthy(t[n := Bumped(t[n])]) by { StepKeepsHealthy(t, RevokeOp(userID)); }
      assert user in byID.Values && forall m :: m in users && users[m] == user ==> m == n;
      hide SameObjects;
      user.tokenVersion := Int64.Wrap(user.tokenVersion + 1);
      assert View() == t[n := Bumped(t[n])];
      return Ok(());
    }

    method AdminCountLocked() returns (count: nat)
      ensures count == |Admins(View())|
    {
      hide Admins;
      ghost var t := View();
      count := 0;
      var todo := users.Keys;
      NotYetCounted(t, todo);
      while todo != {}
        invariant todo <= users.Keys && count == |Admins(t) - todo|
        decreases |todo|
      {
        var name :| name in todo;
        CountOne(t, todo, name);
        assert users[name].Rec() == t[name];
        if users[name].role == ROLE_ADMIN {
          count := count + 1;
        }
        todo := todo - {name};
      }
      NotYetCounted(t, todo);
    }

    method UpdateUserRole(username: string, role: string) returns (r: Result<(), UserError>)
      requires Valid()
      modifies users.Values
      ensures Valid() && users == old(users) && byID == old(byID)
      ensures View() == old(UserTable.UpdateUserRole(View(), username, role).0)
      ensures r == old(UserTable.UpdateUserRole(View(), username, role).1)
    {
      hide Healthy, Admins;
      if username !in users {
        return Err(UserNotFound);
      }
      var user := users[username];
      if role != ROLE_ADMIN && role != ROLE_USER {
        return Err(InvalidRole);
      }
      if user.role == ROLE_ADMIN && role != ROLE_ADMIN {
        var admins := AdminCountLocked();
        if admins <= 1 {
          return Err(LastAdmin);
        }
      }
      ghost var t := View();
      assert Healthy(t[username := t[username].(role := role)]) by { StepKeepsHealthy(t, RoleOp(username, role)); }
      assert user in users.Values && forall n :: n in users && users[n] == user ==> n == username;
      hide SameObjects;
      user.role := role;
      assert View() == t[username := t[username].(role := role)];
      return Ok(());
    }

    method DeleteUser(username: string) returns (r: Result<(), UserError>)
      requires Valid()
      modifies this
      ensures Valid() && users.Values <= old(users.Values)
      ensures View() == old(UserTable.DeleteUser(View(), username).0)
      ensures r == old(UserTable.DeleteUser(View(), username).1)
    {
      hide Healthy, Admins;
      if username !in users {
        return Err(UserNotFound);
      }
      var user := users[username];
      if user.role == ROLE_ADMIN {
        var admins := AdminCountLocked();
        if admins <= 1 {
          return Err(LastAdmin);
        }
      }
      ghost var t := View();
      assert Healthy(t - {username}) by { StepKeepsHealthy(t, DeleteOp(username)); }
      assert user.username == username;
      SameAfterRemove(users, byID, user);
      hide SameObjects;
      users := users - {username};
      byID := byID - {user.id};
      assert View() == t - {username};
      return Ok(());
    }

    ghost function Names(ids: set<string>): set<string>
      reads this
    {
      set i | i in ids && i in byID :: byID[i].username
    }

    lemma {:induction false} NamesLeft(todo: set<string>, id: string)
      requires SameObjects(users, byID) && todo <= byID.Keys && id in todo
      ensures byID[id].username in Names(todo) && byID[id].username in users
      ensures Names(todo - {id}) == Names(todo) - {byID[id].username}
    {
    }

    lemma {:induction false} AllNames()
      requires SameObjects(users, byID)
      ensures Names(byID.Keys) == users.Keys && Names({}) == {}
    {
      forall n | n in users
        ensures n in Names(byID.Keys)
      {
        assert users[n].id in byID;
      }
    }

    /** Clones of all users, in the order this traversal of the map met them. */
    method GetAllUsers() returns (all: seq<User>, ghost order: seq<string>)
      requires Valid()
      ensures Enumerates(Recs(all), order, View())
      ensures fresh(all) && forall i, j :: 0 <= i < j < |all| ==> all[i] != all[j]
    {
      hide Enumerates, Seen, Names, Healthy;
      ghost var t := View();
      all, order := [], [];
      var todo := byID.Keys;
      AllNames();
      Passed(t, Names(todo));
      NoUsersYet();
      while todo != {}
        invariant todo <= byID.Keys && fresh(all)
        invariant forall i, j :: 0 <= i < j < |all| ==> all[i] != all[j]
        invariant Enumerates(Recs(all), order, Seen(t, Names(todo)))
        decreases |todo|
      {
        var id :| id in todo;
        var clone := byID[id].Clone();
        NamesLeft(todo, id);
        PassOne(t, Names(todo), byID[id].username);
        EnumerateOneMore(Recs(all), order, Seen(t, Names(todo)), byID[id].username, clone.Rec());
        assert Recs(all + [clone]) == Recs(all) + [clone.Rec()];
        all, order := all + [clone], order + [byID[id].username];
        todo := todo - {id};
      }
      Passed(t, Names(todo));
    }

    /** One page of clones, by username. */
    method ListUsers(cursor: UserCursor, limit: nat) returns (r: UserList<User>)
      requires Valid()
      ensures ListsUsers(View(), Position(cursor), limit, UserList(Recs(r.items), r.total, r.hasMore))
      ensures fresh(r.items)
    {
      assert Consistent(View());
      hide *;
      var snapshots, order := GetAllUsers();
      r := PageOf(snapshots, order, View(), cursor, limit);
    }

    /** Sorts the snapshots by name, searches the cursor's place and slices. */
    static method PageOf(snapshots: seq<User>, ghost order: seq<string>, ghost t: Users, cursor: UserCursor, limit: nat)
      returns (r: UserList<User>)
      requires Consistent(t) && Enumerates(Recs(snapshots), order, t)
      ensures ListsUsers(t, Position(cursor), limit, UserList(Recs(r.items), r.total, r.hasMore))
      ensures forall i :: 0 <= i < |r.items| ==> r.items[i] in snapshots
    {
      hide *;
      var all := SortBy(Username, Text.Less, snapshots);
      var start := FindStart(all, cursor);
      r := SliceFrom(all, start, limit);
      SortKeepsObjects(snapshots);
      AllIn(r.items, all, snapshots);
      SortedObjectsList(snapshots, order, t, cursor, limit, start);
    }

    static method FindStart(all: seq<User>, cursor: UserCursor) returns (start: nat)
      ensures IsStart(Keyset.Keys(Username, all), cursor, start)
    {
      start := 0;
      if cursor.username != "" {
        start := Search(|all|, i requires 0 <= i < |all| => Text.Less(cursor.username, all[i].username));
      }
    }

    static method SliceFrom(all: seq<User>, start: nat, limit: nat) returns (r: UserList<User>)
      ensures r == Window(all, start, limit) && forall u :: u in r.items ==> u in all
    {
      var total := |all|;
      if start >= total {
        return UserList([], total, false);
      }
      var end := start + limit;
      if end > total {
        end := total;
      }
      return UserList(all[start..end], total, end < total);
    }
  }

  /** adminHash is what bcrypt makes of the admin password, None when it refuses. */
  method NewUserStorage(adminHash: Option<string>, adminEmail: string, id: string, now: int)
    returns (r: Result<UserStore, UserError>)
    ensures adminHash.None? ==> r == Err(HashFailed)
    ensures adminHash.Some? ==>
      r.Ok? && fresh(r.value) && r.value.Valid() && r.value.View() == Initial(adminHash.value, adminEmail, id, now)
  {
    if adminHash.None? {
      return Err(HashFailed);
    }
    var store := new UserStore(adminHash.value, adminEmail, id, now);
    return Ok(store);
  }
}
