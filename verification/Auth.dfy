/** Sessions: issuing tokens, checking them against the live users, and revoking them. */
module Auth {
  import opened Common
  import opened UserTable
  import opened UserLists
  import opened TokenService
  import opened Cursors
  import Base64Url
  import Int64
  import UserStorage
  import UrlService
  import Utf8

  datatype AuthError =
    | WeakPassword | UsernameTaken | RegistrationFailed | InvalidCredentials | PasswordUnchanged | ChangeFailed
    | RevokeFailed | TokenFailed | MissingToken | InvalidTokenFormat | InvalidToken | TokenRevoked | InvalidCursor

  /** What the middleware leaves for the handlers behind it. */
  datatype Identity = Identity(userID: string, username: string, role: string)

  /** strings.Split(s, " ") */
  function SplitSpaces(s: string): (r: seq<string>)
    ensures r != []
  {
    if s == "" then [""]
    else
      var rest := SplitSpaces(s[1..]);
      if s[0] == ' ' then [""] + rest else [[s[0]] + rest[0]] + rest[1..]
  }

  function BearerToken(header: string): Result<string, AuthError> {
    if header == "" then Err(MissingToken)
    else
      var parts := SplitSpaces(header);
      if |parts| != 2 || parts[0] != "Bearer" then Err(InvalidTokenFormat) else Ok(parts[1])
  }

  /** The middleware's decision on a request, given the users as they are now. */
  ghost function Authorize(
    c: Config, mac: (Bytes, string) -> Bytes, t: Users, header: string, now: int): Result<Identity, AuthError> {
    match BearerToken(header)
    case Err(e) => Err(e)
    case Ok(token) =>
      match VerifyToken(c, mac, token, now)
      case Err(_) => Err(InvalidToken)
      case Ok(claims) =>
        match ById(t, claims.userID)
        case None => Err(InvalidToken)
        case Some(n) =>
          if claims.tokenVersion != t[n].tokenVersion then Err(TokenRevoked)
          else Ok(Identity(t[n].id, t[n].username, t[n].role))
  }

  /** AdminMiddleware: whether the role the first middleware set, if any, lets the request through. */
  predicate AdminAllowed(role: Option<string>) {
    role == Some(ROLE_ADMIN)
  }

  predicate ValidPasswordLength(password: string) {
    12 <= |Utf8.Encode(password)| <= 72
  }

  // ----- Revocation -----

  /** Admission needs a user under the token's ID, with the version the token carries. */
  lemma {:induction false} AdmittedIffCurrent(
    c: Config, mac: (Bytes, string) -> Bytes, t: Users, header: string, token: string, claims: Claims, now: int)
    requires BearerToken(header) == Ok(token) && VerifyToken(c, mac, token, now) == Ok(claims)
    ensures Authorize(c, mac, t, header, now).Ok? <==> VersionOf(t, claims.userID) == Some(claims.tokenVersion)
    ensures Authorize(c, mac, t, header, now).Err? ==>
      Authorize(c, mac, t, header, now) == Err(if VersionOf(t, claims.userID).None? then InvalidToken else TokenRevoked)
  {
    hide BearerToken, VerifyToken;
  }

  /**
    Whatever happens to the users after a token was current, the token is admitted exactly when its
    user was not deleted and its version was moved a multiple of 2^64 times: the int64 counter wraps.
   */
  lemma {:induction false} RevokedExactly(
    c: Config, mac: (Bytes, string) -> Bytes, t: Users, run: seq<Op>, used: set<string>,
    header: string, token: string, claims: Claims, now: int)
    requires Consistent(t) && Ids(t) <= used && FreshIds(used, run)
    requires BearerToken(header) == Ok(token) && VerifyToken(c, mac, token, now) == Ok(claims)
    requires VersionOf(t, claims.userID) == Some(claims.tokenVersion)
    ensures Authorize(c, mac, After(t, run), header, now).Ok?
            <==> !Removed(t, run, claims.userID) && BumpCount(t, run, claims.userID) % Int64.SPAN == 0
  {
    var id, version, bumps := claims.userID, claims.tokenVersion, BumpCount(t, run, claims.userID);
    VersionIsPresence(t, id);
    hide *;
    AdmittedIffCurrent(c, mac, After(t, run), header, token, claims, now);
    VersionAlong(t, run, id, used);
    Int64.WrapBack(version, bumps);
  }

  /** A step that revokes the tokens of the user with this ID. */
  ghost predicate Revokes(t: Users, op: Op, id: string) {
    Bumps(t, op, id) || (op.DeleteOp? && id in Ids(t) && id !in Ids(Step(t, op).0))
  }

  lemma {:induction false} NotWholeSpan(k: nat)
    ensures 0 < k < Int64.SPAN ==> k % Int64.SPAN != 0
  {
  }

  /**
    Revocation is permanent: a token current before a successful password change, revocation or
    deletion of its user is refused in every later state, for the next 2^64 - 1 version changes.
   */
  lemma {:induction false} RevocationIsPermanent(
    c: Config, mac: (Bytes, string) -> Bytes, t: Users, op: Op, later: seq<Op>, used: set<string>,
    header: string, token: string, claims: Claims, now: int)
    requires Consistent(t) && Ids(t) <= used && FreshIds(used, [op] + later)
    requires BearerToken(header) == Ok(token) && VerifyToken(c, mac, token, now) == Ok(claims)
    requires VersionOf(t, claims.userID) == Some(claims.tokenVersion) && Revokes(t, op, claims.userID)
    requires BumpCount(Step(t, op).0, later, claims.userID) < Int64.SPAN - 1
    ensures Authorize(c, mac, After(t, [op] + later), header, now).Err?
  {
    hide BearerToken, VerifyToken, Authorize, VersionOf, Consistent, Ids, Bumps, Step, BumpCount, Removed;
    var run := [op] + later;
    assert run[0] == op && run[1..] == later;
    RevokedExactly(c, mac, t, run, used, header, token, claims, now);
    RunUnfolds(t, run, claims.userID);
    NotWholeSpan(BumpCount(t, run, claims.userID));
    hide After, FreshIds;
  }

  /** k revocations of the user's tokens in a row. */
  function Revocations(id: string, k: nat): seq<Op> {
    if k == 0 then [] else [RevokeOp(id)] + Revocations(id, k - 1)
  }

  lemma {:induction false} RevocationsBump(t: Users, id: string, k: nat, used: set<string>)
    requires Consistent(t) && Ids(t) <= used && id in Ids(t)
    ensures BumpCount(t, Revocations(id, k), id) == k && !Removed(t, Revocations(id, k), id)
    ensures FreshIds(used, Revocations(id, k))
    decreases k
  {
    if k > 0 {
      var t' := Step(t, RevokeOp(id)).0;
      assert Revocations(id, k)[0] == RevokeOp(id) && Revocations(id, k)[1..] == Revocations(id, k - 1);
      StepKeepsConsistent(t, RevokeOp(id), used);
      StepOnUser(t, RevokeOp(id), ById(t, id).value);
      assert Bumps(t, RevokeOp(id), id) && id in Ids(t');
      hide Consistent, Ids, Step, Bumps;
      RevocationsBump(t', id, k - 1, used);
    }
  }

  lemma {:induction false} WholeSpans(k: nat)
    requires k <= Int64.SPAN
    ensures k % Int64.SPAN == 0 <==> k == 0 || k == Int64.SPAN
  {
  }

  /** The counter wraps: a current token is refused after 1 to 2^64 - 1 revocations, and admitted again after 2^64. */
  lemma {:induction false} RevocationsWrap(
    c: Config, mac: (Bytes, string) -> Bytes, t: Users, header: string, token: string, claims: Claims, now: int, k: nat)
    requires Consistent(t) && VersionOf(t, claims.userID) == Some(claims.tokenVersion) && k <= Int64.SPAN
    requires BearerToken(header) == Ok(token) && VerifyToken(c, mac, token, now) == Ok(claims)
    ensures Authorize(c, mac, After(t, Revocations(claims.userID, k)), header, now).Ok? <==> k == 0 || k == Int64.SPAN
  {
    VersionIsPresence(t, claims.userID);
    hide *;
    RevocationsBump(t, claims.userID, k, Ids(t));
    RevokedExactly(c, mac, t, Revocations(claims.userID, k), Ids(t), header, token, claims, now);
    WholeSpans(k);
  }

  // ----- Sessions -----

  lemma {:induction false} NoSpaces(s: string)
    requires ' ' !in s
    ensures SplitSpaces(s) == [s]
  {
    if s != "" {
      assert s[0] in s && ' ' !in s[1..];
      NoSpaces(s[1..]);
      assert s == [s[0]] + s[1..];
    }
  }

  lemma {:induction false} SplitWord(word: string, rest: string)
    requires ' ' !in word
    ensures SplitSpaces(word + " " + rest) == [word] + SplitSpaces(rest)
  {
    var s := word + " " + rest;
    if word == "" {
      assert s[1..] == rest;
    } else {
      assert word[0] in word && ' ' !in word[1..] && s[1..] == word[1..] + " " + rest;
      SplitWord(word[1..], rest);
      var r := SplitSpaces(s[1..]);
      assert r == [word[1..]] + SplitSpaces(rest);
      assert word == [word[0]] + word[1..];
    }
  }

  function JoinSpaces(parts: seq<string>): string
    requires parts != []
  {
    if |parts| == 1 then parts[0] else parts[0] + " " + JoinSpaces(parts[1..])
  }

  /** Splitting loses nothing, and leaves no separator in a part. */
  lemma {:induction false} SplitJoins(s: string)
    ensures JoinSpaces(SplitSpaces(s)) == s
    ensures forall part :: part in SplitSpaces(s) ==> ' ' !in part
  {
    if s != "" {
      var rest := SplitSpaces(s[1..]);
      SplitJoins(s[1..]);
      assert s == [s[0]] + s[1..];
      if s[0] == ' ' {
        assert ([""] + rest)[1..] == rest;
        assert "" + " " + JoinSpaces(rest) == s;
      } else {
        var parts := [[s[0]] + rest[0]] + rest[1..];
        assert parts[1..] == rest[1..] && forall p :: p in rest[1..] ==> p in rest;
        assert [s[0]] + JoinSpaces(rest) == JoinSpaces(parts);
      }
    }
  }

  /** Exactly the headers "Bearer <token>" with a single space name a token. */
  lemma {:induction false} BearerExactly(header: string, token: string)
    ensures BearerToken(header) == Ok(token) <==> header == "Bearer " + token && ' ' !in token
  {
    hide SplitSpaces;
    assert "Bearer " + token == "Bearer" + " " + token;
    if ' ' !in token {
      SplitWord("Bearer", token);
      NoSpaces(token);
    }
    SplitJoins(header);
    if BearerToken(header) == Ok(token) {
      var parts := SplitSpaces(header);
      assert parts == ["Bearer", token] && token in parts;
      assert parts[1..] == [token];
    }
  }

  /** The header a client sends for a generated token is read back as that token. */
  lemma {:induction false} HeaderReads(mac: (Bytes, string) -> Bytes, key: Bytes, claims: Claims)
    requires Int64Claims(claims)
    ensures BearerToken("Bearer " + Signed(mac, key, Payload(claims))) == Ok(Signed(mac, key, Payload(claims)))
  {
    var payload, sig := Payload(claims), Base64Url.Encode(mac(key, Payload(claims)));
    PayloadRoundTrip(claims);
    Base64Url.EncodeAlphabet(mac(key, payload));
    assert ' ' !in payload && ' ' !in sig;
    hide Payload, Base64Url.Encode, BearerToken, Base64Url.InAlphabet;
    BearerExactly("Bearer " + (payload + "." + sig), payload + "." + sig);
  }

  lemma {:induction false} RefusedUnverified(
    c: Config, mac: (Bytes, string) -> Bytes, t: Users, header: string, token: string, now: int)
    requires BearerToken(header) == Ok(token) && VerifyToken(c, mac, token, now).Err?
    ensures Authorize(c, mac, t, header, now).Err?
  {
  }

  /** Whoever is admitted is who the token was issued to, with the role stored now. */
  lemma {:induction false} LiveIdentity(
    c: Config, mac: (Bytes, string) -> Bytes, t: Users, n: string, run: seq<Op>, used: set<string>,
    header: string, token: string, claims: Claims, now: int)
    requires Consistent(t) && Ids(t) <= used && FreshIds(used, run) && n in t && claims.userID == t[n].id
    requires BearerToken(header) == Ok(token) && VerifyToken(c, mac, token, now) == Ok(claims)
    ensures var after := After(t, run);
            !Removed(t, run, t[n].id) && Authorize(c, mac, after, header, now).Ok? ==>
              n in after && Authorize(c, mac, after, header, now).value == Identity(t[n].id, n, after[n].role)
  {
    hide BearerToken, VerifyToken, Removed;
    if !Removed(t, run, t[n].id) {
      NameAlong(t, run, n, used);
      ReachableIsConsistent(t, run, used);
      ByIdFinds(After(t, run), n);
    }
  }

  /**
    A session from start to end. A token issued to a user is admitted later, whatever was done to
    the users in between, exactly when the clock is inside its window, the user was not deleted,
    and its version was moved a multiple of 2^64 times; and then the identity handed on has the
    user's stored role of that moment, not the role the token was issued with.
   */
  lemma {:induction false} Session(
    c: Config, mac: (Bytes, string) -> Bytes, t: Users, n: string, jti: string, issued: int,
    run: seq<Op>, used: set<string>, now: int)
    requires IsMac(mac) && c.secretKey != [] && 0 < issued && 1 <= TtlSeconds(c)
    requires Int64.Fits(issued + TtlSeconds(c)) && Int64.Fits(now) && Int64.Fits(now + CLOCK_SKEW)
    requires Consistent(t) && Ids(t) <= used && FreshIds(used, run) && n in t
    requires |GenerateToken(c, mac, jti, t[n].id, n, t[n].role, t[n].tokenVersion, issued).value| <= MAX_TOKEN_LENGTH
    ensures var token := GenerateToken(c, mac, jti, t[n].id, n, t[n].role, t[n].tokenVersion, issued).value;
            var r := Authorize(c, mac, After(t, run), "Bearer " + token, now);
            && (r.Ok? <==>
                && issued - CLOCK_SKEW <= now <= issued + TtlSeconds(c)
                && !Removed(t, run, t[n].id) && BumpCount(t, run, t[n].id) % Int64.SPAN == 0)
            && (r.Ok? ==> n in After(t, run) && r.value == Identity(t[n].id, n, After(t, run)[n].role))
  {
    var u, ttl := t[n], TtlSeconds(c);
    var claims := NewClaims(c, jti, u.id, n, u.role, u.tokenVersion, issued);
    var token := GenerateToken(c, mac, jti, u.id, n, u.role, u.tokenVersion, issued).value;
    OwnTokenWindow(c, mac, jti, u.id, n, u.role, u.tokenVersion, issued, now);
    hide TtlSeconds;
    HeaderReads(mac, c.secretKey, claims);
    assert token == Signed(mac, c.secretKey, Payload(claims));
    VersionAt(t, u.id, n);
    hide *;
    if VerifyToken(c, mac, token, now).Ok? {
      var verified := VerifyToken(c, mac, token, now).value;
      RevokedExactly(c, mac, t, run, used, "Bearer " + token, token, verified, now);
      LiveIdentity(c, mac, t, n, run, used, "Bearer " + token, token, verified, now);
    } else {
      RefusedUnverified(c, mac, After(t, run), "Bearer " + token, token, now);
    }
  }

  /** Behind both middlewares is whoever was admitted and is stored as an admin at that moment, and nobody else. */
  lemma {:induction false} AdminsAreLive(c: Config, mac: (Bytes, string) -> Bytes, t: Users, header: string, now: int)
    requires Consistent(t)
    ensures !AdminAllowed(None)
    ensures var r := Authorize(c, mac, t, header, now);
            r.Ok? ==>
              && r.value.username in t && t[r.value.username].id == r.value.userID
              && (AdminAllowed(Some(r.value.role)) <==> t[r.value.username].role == "admin")
  {
    hide BearerToken, VerifyToken;
  }
}
