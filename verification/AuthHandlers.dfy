/** The authentication handlers over the in-memory user store. */
module AuthHandlers {
  import opened Common
  import opened UserTable
  import opened UserLists
  import opened TokenService
  import opened Auth
  import opened UserStorage
  import opened Cursors
  import Int64
  import UrlService
  import Utf8

  // ----- What the handlers do to the table of users, and answer -----

  function Issue(
    c: Config, mac: (Bytes, string) -> Bytes, u: UserRec, jti: string, now: int): Result<string, TokenError> {
    GenerateToken(c, mac, jti, u.id, u.username, u.role, u.tokenVersion, now)
  }

  /** A registration whose token cannot be issued leaves the user behind. */
  function Registered(
    c: Config, mac: (Bytes, string) -> Bytes, t: Users, username: string, password: string, email: string,
    hash: Option<string>, id: string, jti: string, now: int): (Users, Result<string, AuthError>)
  {
    if !ValidPasswordLength(password) then (t, Err(WeakPassword))
    else
      var (t', created) := Create(t, username, hash, email, id, now);
      match created
      case Err(UsernameExists) => (t', Err(UsernameTaken))
      case Err(_) => (t', Err(RegistrationFailed))
      case Ok(u) => (t', match Issue(c, mac, u, jti, now) case Ok(token) => Ok(token) case Err(_) => Err(TokenFailed))
  }

  function LoggedIn(
    c: Config, mac: (Bytes, string) -> Bytes, t: Users, username: string, password: string,
    matches: (string, string) -> bool, jti: string, now: int): Result<string, AuthError>
  {
    if username !in t || !matches(t[username].password, password) then Err(InvalidCredentials)
    else
      match Issue(c, mac, t[username], jti, now)
      case Ok(token) => Ok(token)
      case Err(_) => Err(TokenFailed)
  }

  ghost function PasswordChanged(
    t: Users, who: Identity, current: string, password: string, matches: (string, string) -> bool, hash: Option<string>)
    : (Users, Result<(), AuthError>)
  {
    if !ValidPasswordLength(password) then (t, Err(WeakPassword))
    else if current == password then (t, Err(PasswordUnchanged))
    else if who.username !in t || !matches(t[who.username].password, current) then (t, Err(InvalidCredentials))
    else
      var (t', r) := UpdatePassword(t, who.userID, hash);
      (t', if r.Ok? then Ok(()) else Err(ChangeFailed))
  }

  /**
    A registration succeeds exactly for an acceptable password, a free name, a hash and a signing key.
    It makes the user a plain one with the data given, and leaves everybody else and all admins as they were.
   */
  lemma {:induction false} RegisteredExactly(
    c: Config, mac: (Bytes, string) -> Bytes, t: Users, username: string, password: string, email: string,
    hash: Option<string>, id: string, jti: string, now: int)
    ensures var (t', r) := Registered(c, mac, t, username, password, email, hash, id, jti, now);
            var acceptable := 12 <= |Utf8.Encode(password)| <= 72;
            var created := acceptable && username !in t && hash.Some?;
            && (r.Ok? <==> created && c.secretKey != []) && Admins(t') == Admins(t)
            && (!created ==> t' == t)
            && (created ==>
                 && username in t' && OthersSame(t, t', username)
                 && var u := t'[username];
                    && u.username == username && u.password == hash.value && u.email == email && u.id == id
                    && u.role == "user" && u.tokenVersion == 0)
            && (r.Ok? ==> r.value == GenerateToken(c, mac, jti, id, username, "user", 0, now).value)
            && (username in t && acceptable ==> r == Err(UsernameTaken))
            && (!acceptable ==> r == Err(WeakPassword))
  {
    CreateExactly(t, username, hash, email, id, now);
    hide Admins;
  }

  /** A login succeeds exactly with the stored password (and a signing key), and gets a token of the stored record. */
  lemma {:induction false} LoggedInExactly(
    c: Config, mac: (Bytes, string) -> Bytes, t: Users, username: string, password: string,
    matches: (string, string) -> bool, jti: string, now: int)
    requires Consistent(t)
    ensures var r := LoggedIn(c, mac, t, username, password, matches, jti, now);
            && (r.Ok? <==> username in t && matches(t[username].password, password) && c.secretKey != [])
            && (r.Ok? ==>
                 var u := t[username];
                 r.value == GenerateToken(c, mac, jti, u.id, username, u.role, u.tokenVersion, now).value)
            && (username !in t || !matches(t[username].password, password) ==> r == Err(InvalidCredentials))
  {
  }

  /**
    A user changes the own password exactly with the right current password and a different, acceptable
    new one that was hashed. The new hash is then stored and the token version moved; nothing else changes.
   */
  lemma {:induction false} PasswordChangedExactly(
    t: Users, n: string, who: Identity, current: string, password: string,
    matches: (string, string) -> bool, hash: Option<string>)
    requires Consistent(t) && n in t && who.username == n && who.userID == t[n].id
    ensures var (t', r) := PasswordChanged(t, who, current, password, matches, hash);
            var acceptable := 12 <= |Utf8.Encode(password)| <= 72;
            && (r.Ok? <==> acceptable && current != password && matches(t[n].password, current) && hash.Some?)
            && (r.Err? ==> t' == t)
            && (r.Ok? ==>
                 && t'.Keys == t.Keys && OthersSame(t, t', n)
                 && t'[n].password == hash.value && t'[n].tokenVersion == Int64.Wrap(t[n].tokenVersion + 1)
                 && t'[n].role == t[n].role && t'[n].id == t[n].id)
            && (acceptable && current != password && !matches(t[n].password, current) ==>
                 r == Err(InvalidCredentials))
  {
    PasswordExactly(t, n, hash);
  }

  /** A successful password change, and a successful revocation, revoke every token issued to the user before. */
  lemma {:induction false} HandlersRevoke(
    t: Users, who: Identity, current: string, password: string, matches: (string, string) -> bool, hash: Option<string>)
    ensures var (t', r) := PasswordChanged(t, who, current, password, matches, hash);
      if r.Ok? then t' == Step(t, PasswordOp(who.userID, hash)).0 && Revokes(t, PasswordOp(who.userID, hash), who.userID)
      else t' == t
    ensures RevokeTokens(t, who.userID).1.Ok? ==> Revokes(t, RevokeOp(who.userID), who.userID)
  {
  }

  lemma {:induction false} NextVersionDiffers(version: int)
    requires Int64.Fits(version)
    ensures Int64.Wrap(version + 1) != version
  {
    Int64.WrapBack(version, 1);
  }

  /** Once the version of an admitted token's user is another one, the token counts as revoked. */
  lemma {:induction false} MovedOn(
    c: Config, mac: (Bytes, string) -> Bytes, t: Users, t': Users, header: string, now: int, n: string)
    requires Consistent(t) && n in t && Authorize(c, mac, t, header, now).Ok?
    requires Authorize(c, mac, t, header, now).value.userID == t[n].id
    requires t'.Keys == t.Keys && OthersSame(t, t', n) && t'[n].id == t[n].id && t'[n].tokenVersion != t[n].tokenVersion
    ensures Authorize(c, mac, t', header, now) == Err(TokenRevoked)
  {
    hide BearerToken, VerifyToken;
    ByIdFinds(t, n);
    assert forall m :: m in t' && t'[m].id == t[n].id ==> m == n;
  }

  /** The very token that a user changed the password or revoked the sessions with is refused from then on as revoked. */
  lemma {:induction false} RevokedAtOnce(
    c: Config, mac: (Bytes, string) -> Bytes, t: Users, header: string, now: int, who: Identity,
    current: string, password: string, matches: (string, string) -> bool, hash: Option<string>)
    requires Consistent(t) && Authorize(c, mac, t, header, now) == Ok(who)
    ensures var (t', r) := PasswordChanged(t, who, current, password, matches, hash);
            r.Ok? ==> Authorize(c, mac, t', header, now) == Err(TokenRevoked)
    ensures var (t', r) := RevokeTokens(t, who.userID);
            r.Ok? && Authorize(c, mac, t', header, now) == Err(TokenRevoked)
  {
    var n := who.username;
    AdminsAreLive(c, mac, t, header, now);
    assert n in t && who.userID == t[n].id;
    PasswordChangedExactly(t, n, who, current, password, matches, hash);
    RevokeExactly(t, n);
    NextVersionDiffers(t[n].tokenVersion);
    var changed, revoked := PasswordChanged(t, who, current, password, matches, hash).0, RevokeTokens(t, who.userID).0;
    if PasswordChanged(t, who, current, password, matches, hash).1.Ok? {
      MovedOn(c, mac, t, changed, header, now, n);
    }
    MovedOn(c, mac, t, revoked, header, now, n);
  }

  /**
    From login to any later request, over whatever happens to the users in between: the token is
    admitted exactly in its window, unless its user was deleted or its version moved (but by a
    multiple of 2^64), and then with the role stored at that moment.
   */
  lemma {:induction false} LoginSession(
    c: Config, mac: (Bytes, string) -> Bytes, t: Users, username: string, password: string,
    matches: (string, string) -> bool, jti: string, issued: int, run: seq<Op>, used: set<string>, now: int)
    requires IsMac(mac) && 0 < issued && 1 <= TtlSeconds(c)
    requires Int64.Fits(issued + TtlSeconds(c)) && Int64.Fits(now) && Int64.Fits(now + CLOCK_SKEW)
    requires Consistent(t) && Ids(t) <= used && FreshIds(used, run)
    requires LoggedIn(c, mac, t, username, password, matches, jti, issued).Ok?
    requires |LoggedIn(c, mac, t, username, password, matches, jti, issued).value| <= MAX_TOKEN_LENGTH
    ensures username in t
    ensures var token, id := LoggedIn(c, mac, t, username, password, matches, jti, issued).value, t[username].id;
            var r := Authorize(c, mac, After(t, run), "Bearer " + token, now);
            && (r.Ok? <==>
                && issued - CLOCK_SKEW <= now <= issued + TtlSeconds(c)
                && !Removed(t, run, id) && BumpCount(t, run, id) % Int64.SPAN == 0)
            && (r.Ok? ==> username in After(t, run) && r.value == Identity(id, username, After(t, run)[username].role))
  {
    LoggedInExactly(c, mac, t, username, password, matches, jti, issued);
    hide *;
    Session(c, mac, t, username, jti, issued, run, used, now);
  }

  class AuthHandler {
    const userStorage: UserStore
    const tokens: Config
    const mac: (Bytes, string) -> Bytes

    constructor (userStorage: UserStore, tokens: Config, mac: (Bytes, string) -> Bytes)
      ensures this.userStorage == userStorage && this.tokens == tokens && this.mac == mac
    {
      this.userStorage, this.tokens, this.mac := userStorage, tokens, mac;
    }

    /** hash, id and jti are what bcrypt and the generator of random IDs return. */
    method Register(
        username: string, password: string, email: string, hash: Option<string>, id: string, jti: string, now: int)
      returns (r: Result<string, AuthError>)
      requires userStorage.Valid() && id !in userStorage.byID
      modifies userStorage
      ensures userStorage.Valid()
      ensures userStorage.View()
              == old(Registered(tokens, mac, userStorage.View(), username, password, email, hash, id, jti, now).0)
      ensures r == old(Registered(tokens, mac, userStorage.View(), username, password, email, hash, id, jti, now).1)
    {
      hide Create, GenerateToken, ValidPasswordLength;
      if !ValidPasswordLength(password) {
        return Err(WeakPassword);
      }
      var user := userStorage.CreateUser(username, hash, email, id, now);
      if user.Err? {
        return if user.error == UsernameExists then Err(UsernameTaken) else Err(RegistrationFailed);
      }
      var u := user.value;
      var token := GenerateToken(tokens, mac, jti, u.id, u.username, u.role, u.tokenVersion, now);
      if token.Err? {
        return Err(TokenFailed);
      }
      return Ok(token.value);
    }

    method Login(username: string, password: string, matches: (string, string) -> bool, jti: string, now: int)
      returns (r: Result<string, AuthError>)
      requires userStorage.Valid()
      ensures r == LoggedIn(tokens, mac, userStorage.View(), username, password, matches, jti, now)
    {
      hide GenerateToken;
      var valid := userStorage.VerifyPassword(username, password, matches);
      if valid.Err? || !valid.value {
        return Err(InvalidCredentials);
      }
      var user := userStorage.GetUser(username);
      if user.Err? {
        return Err(InvalidCredentials);
      }
      var u := user.value;
      var token := GenerateToken(tokens, mac, jti, u.id, u.username, u.role, u.tokenVersion, now);
      if token.Err? {
        return Err(TokenFailed);
      }
      return Ok(token.value);
    }

    /** hash is what bcrypt makes of the new password. */
    method ChangePassword(
        who: Identity, current: string, password: string, matches: (string, string) -> bool, hash: Option<string>)
      returns (r: Result<(), AuthError>)
      requires userStorage.Valid()
      modifies userStorage.byID.Values
      ensures userStorage.Valid()
      ensures userStorage.View() == old(PasswordChanged(userStorage.View(), who, current, password, matches, hash).0)
      ensures r == old(PasswordChanged(userStorage.View(), who, current, password, matches, hash).1)
    {
      hide ValidPasswordLength, UpdatePassword;
      if !ValidPasswordLength(password) {
        return Err(WeakPassword);
      }
      if current == password {
        return Err(PasswordUnchanged);
      }
      var valid := userStorage.VerifyPassword(who.username, current, matches);
      if valid.Err? || !valid.value {
        return Err(InvalidCredentials);
      }
      var changed := userStorage.UpdatePassword(who.userID, hash);
      if changed.Err? {
        return Err(ChangeFailed);
      }
      return Ok(());
    }

    method RevokeSessions(who: Identity) returns (r: Result<(), AuthError>)
      requires userStorage.Valid()
      modifies userStorage.byID.Values
      ensures userStorage.Valid()
      ensures userStorage.View() == old(RevokeTokens(userStorage.View(), who.userID).0)
      ensures r.Ok? <==> old(RevokeTokens(userStorage.View(), who.userID).1.Ok?)
    {
      hide RevokeTokens;
      var revoked := userStorage.RevokeTokens(who.userID);
      if revoked.Err? {
        return Err(RevokeFailed);
      }
      return Ok(());
    }

    /** The identity comes from the stored user of this moment, not from the token. */
    method AuthMiddleware(header: string, now: int) returns (r: Result<Identity, AuthError>)
      requires userStorage.Valid()
      ensures r == Authorize(tokens, mac, userStorage.View(), header, now)
    {
      hide VerifyToken, SplitSpaces;
      if header == "" {
        return Err(MissingToken);
      }
      var parts := SplitSpaces(header);
      if |parts| != 2 || parts[0] != "Bearer" {
        return Err(InvalidTokenFormat);
      }
      var claims := VerifyToken(tokens, mac, parts[1], now);
      if claims.Err? {
        return Err(InvalidToken);
      }
      var user := userStorage.GetUserByID(claims.value.userID);
      if user.Err? {
        return Err(InvalidToken);
      }
      if claims.value.tokenVersion != user.value.tokenVersion {
        return Err(TokenRevoked);
      }
      return Ok(Identity(user.value.id, user.value.username, user.value.role));
    }

    /** One page of the user list, and the cursor for the next. */
    method GetAllUsers(limit: int, cursorText: string) returns (r: Result<(UserList<User>, string), AuthError>)
      requires userStorage.Valid()
      ensures r.Err? ==> Serves(userStorage.View(), limit, cursorText, Err(()))
      ensures r.Ok? ==> fresh(r.value.0.items)
      ensures r.Ok? ==>
        var (page, next) := r.value;
        Serves(userStorage.View(), limit, cursorText, Ok(ServedUsers(Recs(page.items), next, page.total, page.hasMore)))
    {
      hide DecodeUserCursor, EncodeUserCursor, ListsUsers;
      var cursor := UserCursor("");
      if cursorText != "" {
        var decoded := DecodeUserCursor(cursorText);
        if decoded.None? || decoded.value.username == "" {
          return Err(InvalidCursor);
        }
        cursor := decoded.value;
      }
      var res := userStorage.ListUsers(cursor, UrlService.NormalizeLimit(limit));
      var nextCursor := "";
      if res.hasMore && |res.items| > 0 {
        nextCursor := EncodeUserCursor(UserCursor(res.items[|res.items| - 1].username));
      }
      return Ok((res, nextCursor));
    }
  }
}
