/** Signed tokens: base64url(JSON claims) "." base64url(MAC), and the checks that accept one. */
module TokenService {
  import opened Common
  import opened Durations
  import Base64Url
  import Int64
  import Json
  import Utf8

  const MAX_TOKEN_LENGTH: nat := 4096
  const CLOCK_SKEW: int := 30
  const ACTIVE_KEY_ID := "v1"
  const MAC_SIZE: nat := 32

  type Bytes = seq<Base64Url.Byte>

  datatype Claims = Claims(
    jti: string, userID: string, username: string, role: string, tokenVersion: int,
    iss: string, aud: string, kid: string, issuedAt: int, expiresAt: int)

  datatype TokenError =
    | NoSigningKey | TokenEmpty | TokenTooLarge | InvalidFormat | InvalidSignature | InvalidEncoding
    | InvalidPayload | InvalidTimestamps | IssuedInFuture | TokenExpired | LifetimeTooLong
    | UnknownKeyID | InvalidIssuer | InvalidAudience

  /** What the options left in the service; the time to live is in nanoseconds. */
  datatype Config = Config(secretKey: Bytes, previousKey: Bytes, ttl: int, issuer: string, audience: string)

  function TtlSeconds(c: Config): int {
    TruncDiv(c.ttl, SECOND)
  }

  /** The keyed hash of a payload is not interpreted beyond the size of its digest. */
  ghost predicate IsMac(mac: (Bytes, string) -> Bytes) {
    forall key, payload :: |mac(key, payload)| == MAC_SIZE
  }

  // ----- Payloads -----

  function Members(c: Claims): (ms: seq<Json.Member>)
    ensures |ms| == 10
  {
    [Json.Member("jti", Json.Str(c.jti)),
     Json.Member("user_id", Json.Str(c.userID)),
     Json.Member("username", Json.Str(c.username)),
     Json.Member("role", Json.Str(c.role)),
     Json.Member("token_version", Json.Num(c.tokenVersion)),
     Json.Member("iss", Json.Str(c.iss)),
     Json.Member("aud", Json.Str(c.aud)),
     Json.Member("kid", Json.Str(c.kid)),
     Json.Member("issued_at", Json.Num(c.issuedAt)),
     Json.Member("expires_at", Json.Num(c.expiresAt))]
  }

  function FromMembers(ms: seq<Json.Member>): (r: Option<Claims>)
    ensures r.Some? ==> Int64.Fits(r.value.issuedAt) && Int64.Fits(r.value.expiresAt)
  {
    var jti, userID := Json.StringField(ms, "jti"), Json.StringField(ms, "user_id");
    var username, role := Json.StringField(ms, "username"), Json.StringField(ms, "role");
    var version := Json.Int64Field(ms, "token_version");
    var iss, aud, kid := Json.StringField(ms, "iss"), Json.StringField(ms, "aud"), Json.StringField(ms, "kid");
    var issuedAt, expiresAt := Json.Int64Field(ms, "issued_at"), Json.Int64Field(ms, "expires_at");
    if jti.Some? && userID.Some? && username.Some? && role.Some? && version.Some? && iss.Some? && aud.Some? && kid.Some?
       && issuedAt.Some? && expiresAt.Some? then
      Some(Claims(jti.value, userID.value, username.value, role.value, version.value,
                  iss.value, aud.value, kid.value, issuedAt.value, expiresAt.value))
    else None
  }

  function Payload(c: Claims): string {
    Base64Url.Encode(Utf8.Encode(Json.Marshal(Members(c))))
  }

  function ReadPayload(payload: string): Result<Claims, TokenError> {
    match Base64Url.Decode(payload)
    case None => Err(InvalidEncoding)
    case Some(b) =>
      match Json.Unmarshal(Utf8.Decode(b))
      case None => Err(InvalidPayload)
      case Some(ms) =>
        match FromMembers(ms)
        case None => Err(InvalidPayload)
        case Some(c) => Ok(c)
  }

  /** Tells the field names apart. */
  function Mark(name: string): int {
    if name == "" then 0 else 256 * |name| + name[0] as int
  }

  lemma {:induction false} NamesDiffer(c: Claims, i: nat, j: nat)
    requires i < 10 && j < 10 && i != j
    ensures Members(c)[i].name != Members(c)[j].name
  {
    var ms := Members(c);
    assert Mark(ms[0].name) == 874 && Mark(ms[1].name) == 1909 && Mark(ms[2].name) == 2165 && Mark(ms[3].name) == 1138;
    assert Mark(ms[4].name) == 3444 && Mark(ms[5].name) == 873 && Mark(ms[6].name) == 865 && Mark(ms[7].name) == 875;
    assert Mark(ms[8].name) == 2409 && Mark(ms[9].name) == 2661;
  }

  lemma {:induction false} ClaimFilled(c: Claims, i: nat)
    requires i < 10
    ensures var ms := Members(c);
            && (ms[i].value.Str? ==> Json.StringField(ms, ms[i].name) == Some(ms[i].value.s))
            && (ms[i].value.Num? && Int64.Fits(ms[i].value.n) ==> Json.Int64Field(ms, ms[i].name) == Some(ms[i].value.n))
  {
    var ms := Members(c);
    forall j | 0 <= j < |ms| && j != i
      ensures ms[j].name != ms[i].name
    {
      NamesDiffer(c, i, j);
    }
    hide Members;
    Json.FieldFilled(ms, i);
  }

  predicate Int64Claims(c: Claims) {
    Int64.Fits(c.tokenVersion) && Int64.Fits(c.issuedAt) && Int64.Fits(c.expiresAt)
  }

  lemma {:induction false} MembersRoundTrip(c: Claims)
    requires Int64Claims(c)
    ensures FromMembers(Members(c)) == Some(c)
  {
    hide Json.StringField, Json.Int64Field, Int64.Fits;
    ClaimFilled(c, 0);
    ClaimFilled(c, 1);
    ClaimFilled(c, 2);
    ClaimFilled(c, 3);
    ClaimFilled(c, 4);
    ClaimFilled(c, 5);
    ClaimFilled(c, 6);
    ClaimFilled(c, 7);
    ClaimFilled(c, 8);
    ClaimFilled(c, 9);
  }

  /** A payload holds its claims and nothing that could be taken for the separator. */
  lemma {:induction false} PayloadRoundTrip(c: Claims)
    requires Int64Claims(c)
    ensures ReadPayload(Payload(c)) == Ok(c)
    ensures forall x :: x in Payload(c) ==> Base64Url.InAlphabet(x)
  {
    var text := Json.Marshal(Members(c));
    hide Json.Marshal, Json.Unmarshal, Utf8.Encode, Utf8.Decode, Base64Url.Encode, Base64Url.Decode, Base64Url.InAlphabet,
      Members, FromMembers, Int64.Fits;
    Json.RoundTrip(Members(c));
    Utf8.RoundTrip(text);
    Base64Url.RoundTrip(Utf8.Encode(text));
    Base64Url.EncodeAlphabet(Utf8.Encode(text));
    MembersRoundTrip(c);
  }

  // ----- Generation -----

  /** jti is the generated ID, now the Unix second the clock shows. */
  function NewClaims(
    c: Config, jti: string, userID: string, username: string, role: string, version: int, now: int): Claims {
    Claims(jti, userID, username, role, version, c.issuer, c.audience, ACTIVE_KEY_ID, now, Int64.Wrap(now + TtlSeconds(c)))
  }

  function Signed(mac: (Bytes, string) -> Bytes, key: Bytes, payload: string): string {
    payload + "." + Base64Url.Encode(mac(key, payload))
  }

  function GenerateToken(
    c: Config, mac: (Bytes, string) -> Bytes, jti: string, userID: string, username: string, role: string,
    version: int, now: int): Result<string, TokenError>
  {
    if c.secretKey == [] then Err(NoSigningKey)
    else Ok(Signed(mac, c.secretKey, Payload(NewClaims(c, jti, userID, username, role, version, now))))
  }

  // ----- Verification -----

  /** The text before and after the first '.'. */
  function SplitDot(s: string): Option<(string, string)> {
    if s == "" then None
    else if s[0] == '.' then Some(("", s[1..]))
    else
      match SplitDot(s[1..])
      case None => None
      case Some((before, after)) => Some(([s[0]] + before, after))
  }

  /** The checks up to the signature; the payload is not looked at before it. */
  function Authenticate(c: Config, mac: (Bytes, string) -> Bytes, token: string): Result<string, TokenError> {
    if token == "" then Err(TokenEmpty)
    else if |Utf8.Encode(token)| > MAX_TOKEN_LENGTH then Err(TokenTooLarge)
    else if c.secretKey == [] then Err(NoSigningKey)
    else
      match SplitDot(token)
      case None => Err(InvalidFormat)
      case Some((payload, sigText)) =>
        match Base64Url.Decode(sigText)
        case None => Err(InvalidSignature)
        case Some(sig) =>
          if |sig| != MAC_SIZE then Err(InvalidSignature)
          else if sig == mac(c.secretKey, payload) || (|c.previousKey| > 0 && sig == mac(c.previousKey, payload)) then Ok(payload)
          else Err(InvalidSignature)
  }

  /** The checks on the claims, in the order they are made. */
  function Judge(c: Config, claims: Claims, now: int): Option<TokenError> {
    if claims.issuedAt <= 0 || claims.expiresAt <= claims.issuedAt then Some(InvalidTimestamps)
    else if claims.issuedAt > Int64.Wrap(now + CLOCK_SKEW) then Some(IssuedInFuture)
    else if now > claims.expiresAt then Some(TokenExpired)
    else if Int64.Wrap(claims.expiresAt - claims.issuedAt) > TtlSeconds(c) then Some(LifetimeTooLong)
    else if claims.kid != "" && claims.kid != ACTIVE_KEY_ID then Some(UnknownKeyID)
    else if c.issuer != "" && claims.iss != c.issuer then Some(InvalidIssuer)
    else if c.audience != "" && claims.aud != c.audience then Some(InvalidAudience)
    else None
  }

  /** The checks in order, with whatever reads the claims of a payload. */
  function VerifyWith(
    read: string -> Result<Claims, TokenError>, c: Config, mac: (Bytes, string) -> Bytes, token: string, now: int)
    : Result<Claims, TokenError>
  {
    match Authenticate(c, mac, token)
    case Err(e) => Err(e)
    case Ok(payload) =>
      match read(payload)
      case Err(e) => Err(e)
      case Ok(claims) =>
        match Judge(c, claims, now)
        case Some(e) => Err(e)
        case None => Ok(claims)
  }

  function VerifyToken(c: Config, mac: (Bytes, string) -> Bytes, token: string, now: int): Result<Claims, TokenError> {
    VerifyWith(ReadPayload, c, mac, token, now)
  }

  // ----- Round trip -----

  lemma {:induction false} SplitFirst(before: string, after: string)
    requires '.' !in before
    ensures SplitDot(before + "." + after) == Some((before, after))
  {
    var s := before + "." + after;
    if before == "" {
      assert s == ['.'] + after;
    } else {
      assert before[0] in before && s[1..] == before[1..] + "." + after;
      SplitFirst(before[1..], after);
      assert before == [before[0]] + before[1..];
    }
  }

  lemma {:induction false} SplitJoins(s: string)
    ensures match SplitDot(s)
      case None => '.' !in s
      case Some((before, after)) => '.' !in before && s == before + "." + after
  {
    if s != "" && s[0] != '.' {
      SplitJoins(s[1..]);
      assert s == [s[0]] + s[1..];
    }
  }

  /** A key the service takes the signature of this payload for its own. */
  predicate KeyAccepted(c: Config, mac: (Bytes, string) -> Bytes, key: Bytes, payload: string) {
    mac(key, payload) == mac(c.secretKey, payload)
    || (c.previousKey != [] && mac(key, payload) == mac(c.previousKey, payload))
  }

  lemma {:induction false} AuthenticateSigned(c: Config, mac: (Bytes, string) -> Bytes, key: Bytes, payload: string)
    requires IsMac(mac) && c.secretKey != [] && forall x :: x in payload ==> Base64Url.InAlphabet(x)
    requires |Signed(mac, key, payload)| <= MAX_TOKEN_LENGTH
    ensures Authenticate(c, mac, Signed(mac, key, payload))
            == if KeyAccepted(c, mac, key, payload) then Ok(payload) else Err(InvalidSignature)
  {
    var token, sig := Signed(mac, key, payload), mac(key, payload);
    assert |sig| == MAC_SIZE;
    assert '.' !in payload;
    SplitFirst(payload, Base64Url.Encode(sig));
    Base64Url.RoundTrip(sig);
    assert |Utf8.Encode(token)| == |token| by {
      Base64Url.EncodeAlphabet(sig);
      hide Base64Url.Encode;
      forall x | x in token
        ensures x < '\U{80}'
      {
        assert x in payload || x == '.' || x in Base64Url.Encode(sig);
      }
      Utf8.AsciiLength(token);
    }
    hide Base64Url.Encode, Base64Url.Decode, Utf8.Encode, SplitDot;
  }

  /** What a service makes of claims generated by another (or itself) at issued, key aside. */
  lemma {:induction false} JudgeGenerated(s: Config, c: Config, claims: Claims, issued: int, now: int)
    requires claims.issuedAt == issued && claims.expiresAt == issued + TtlSeconds(s) && claims.kid == ACTIVE_KEY_ID
    requires claims.iss == s.issuer && claims.aud == s.audience
    requires Int64.Fits(issued) && Int64.Fits(issued + TtlSeconds(s)) && Int64.Fits(now) && Int64.Fits(now + CLOCK_SKEW)
    ensures Judge(c, claims, now) == None <==>
      && issued > 0 && 1 <= TtlSeconds(s) <= TtlSeconds(c)
      && issued - CLOCK_SKEW <= now <= issued + TtlSeconds(s)
      && (c.issuer == "" || c.issuer == s.issuer) && (c.audience == "" || c.audience == s.audience)
  {
    hide TruncDiv, TtlSeconds;
  }

  /**
    The round trip, across a key rotation too. A token generated by s is accepted by c, with the
    claims it was generated with, exactly when c takes the signature for its own, the lifetime of s
    is at least a second and no longer than that of c, issuer and audience match where c asks for
    them, and now lies in [issued - 30, issued + ttl]. No claim tells the keys apart.
   */
  lemma {:induction false} TokenRoundTrip(
    s: Config, c: Config, mac: (Bytes, string) -> Bytes, jti: string, userID: string, username: string, role: string,
    version: int, issued: int, now: int)
    requires IsMac(mac) && s.secretKey != [] && c.secretKey != []
    requires Int64.Fits(version) && Int64.Fits(issued) && Int64.Fits(issued + TtlSeconds(s))
    requires Int64.Fits(now) && Int64.Fits(now + CLOCK_SKEW)
    requires |GenerateToken(s, mac, jti, userID, username, role, version, issued).value| <= MAX_TOKEN_LENGTH
    ensures var claims := Claims(jti, userID, username, role, version, s.issuer, s.audience, ACTIVE_KEY_ID,
                                 issued, issued + TtlSeconds(s));
            var r := VerifyToken(c, mac, GenerateToken(s, mac, jti, userID, username, role, version, issued).value, now);
            && (r.Ok? ==> r.value == claims)
            && (r.Ok? <==>
                && KeyAccepted(c, mac, s.secretKey, Payload(claims))
                && issued > 0 && 1 <= TtlSeconds(s) <= TtlSeconds(c)
                && issued - CLOCK_SKEW <= now <= issued + TtlSeconds(s)
                && (c.issuer == "" || c.issuer == s.issuer) && (c.audience == "" || c.audience == s.audience))
  {
    var claims := NewClaims(s, jti, userID, username, role, version, issued);
    hide TtlSeconds;
    assert claims == Claims(jti, userID, username, role, version, s.issuer, s.audience, ACTIVE_KEY_ID,
                            issued, issued + TtlSeconds(s));
    assert Int64Claims(claims);
    hide Int64.Wrap, Judge, Payload, ReadPayload, Authenticate, KeyAccepted, IsMac, Base64Url.InAlphabet;
    PayloadRoundTrip(claims);
    AuthenticateSigned(c, mac, s.secretKey, Payload(claims));
    JudgeGenerated(s, c, claims, issued, now);
  }

  /** Verified by the service that generated it: the window is all that matters. */
  lemma {:induction false} OwnTokenWindow(
    c: Config, mac: (Bytes, string) -> Bytes, jti: string, userID: string, username: string, role: string,
    version: int, issued: int, now: int)
    requires IsMac(mac) && c.secretKey != []
    requires 0 < issued && 1 <= TtlSeconds(c) && Int64.Fits(version) && Int64.Fits(issued + TtlSeconds(c))
    requires Int64.Fits(now) && Int64.Fits(now + CLOCK_SKEW)
    requires |GenerateToken(c, mac, jti, userID, username, role, version, issued).value| <= MAX_TOKEN_LENGTH
    ensures VerifyToken(c, mac, GenerateToken(c, mac, jti, userID, username, role, version, issued).value, now)
            == if now < issued - 30 then Err(IssuedInFuture)
               else if now > issued + TtlSeconds(c) then Err(TokenExpired)
               else Ok(Claims(jti, userID, username, role, version, c.issuer, c.audience, "v1",
                              issued, issued + TtlSeconds(c)))
  {
    var claims := NewClaims(c, jti, userID, username, role, version, issued);
    hide TtlSeconds;
    assert claims == Claims(jti, userID, username, role, version, c.issuer, c.audience, ACTIVE_KEY_ID,
                            issued, issued + TtlSeconds(c));
    assert Int64Claims(claims) && KeyAccepted(c, mac, c.secretKey, Payload(claims));
    assert Judge(c, claims, now) == if now < issued - CLOCK_SKEW then Some(IssuedInFuture)
                                    else if now > issued + TtlSeconds(c) then Some(TokenExpired) else None;
    hide Int64.Wrap, Judge, Payload, ReadPayload, Authenticate, KeyAccepted, IsMac, Base64Url.InAlphabet, NewClaims;
    PayloadRoundTrip(claims);
    AuthenticateSigned(c, mac, c.secretKey, Payload(claims));
  }

  // ----- Any token -----

  /** A time to live counts in whole seconds, rounded down. */
  lemma {:induction false} TtlExactly(c: Config)
    requires c.ttl >= 0
    ensures TtlSeconds(c) * 1_000_000_000 <= c.ttl < (TtlSeconds(c) + 1) * 1_000_000_000
  {
  }

  /** What is refused before any signature is looked at. */
  lemma {:induction false} RefusedUnread(c: Config, mac: (Bytes, string) -> Bytes, token: string, now: int)
    ensures token == "" ==> VerifyToken(c, mac, token, now) == Err(TokenEmpty)
    ensures token != "" && |Utf8.Encode(token)| > 4096 ==> VerifyToken(c, mac, token, now) == Err(TokenTooLarge)
    ensures token != "" && |Utf8.Encode(token)| <= 4096 && c.secretKey == [] ==>
      VerifyToken(c, mac, token, now) == Err(NoSigningKey)
    ensures token != "" && |Utf8.Encode(token)| <= 4096 && c.secretKey != [] && '.' !in token ==>
      VerifyToken(c, mac, token, now) == Err(InvalidFormat)
  {
    SplitJoins(token);
    hide SplitDot, Utf8.Encode, ReadPayload, Judge, Base64Url.Decode;
    if SplitDot(token).Some? {
      var (before, after) := SplitDot(token).value;
      assert token[|before|] == '.';
    }
  }

  /** Once the earlier checks passed, the lifetime subtraction is exact. */
  lemma {:induction false} LifetimeCannotWrap(claims: Claims)
    requires Int64.Fits(claims.issuedAt) && Int64.Fits(claims.expiresAt)
    requires 0 < claims.issuedAt < claims.expiresAt
    ensures Int64.Wrap(claims.expiresAt - claims.issuedAt) == claims.expiresAt - claims.issuedAt
  {
  }

  /** The timestamps a reader of claims returns are int64, as the struct fields are; that is all that is asked of it. */
  ghost predicate ReadsInt64(read: string -> Result<Claims, TokenError>) {
    forall payload :: read(payload).Ok? ==>
      Int64.Fits(read(payload).value.issuedAt) && Int64.Fits(read(payload).value.expiresAt)
  }

  lemma {:induction false} ReaderReadsInt64()
    ensures ReadsInt64(ReadPayload)
  {
  }

  /**
    An accepted token was issued at most 30 seconds ahead, has not expired, and lives no longer than
    the service allows: for every token string, and however payloads are read.
   */
  lemma {:induction false} AcceptedWindow(
    read: string -> Result<Claims, TokenError>, c: Config, mac: (Bytes, string) -> Bytes, token: string, now: int)
    requires ReadsInt64(read) && Int64.Fits(now) && VerifyWith(read, c, mac, token, now).Ok?
    ensures var claims := VerifyWith(read, c, mac, token, now).value;
            && 0 < claims.issuedAt < claims.expiresAt <= claims.issuedAt + TtlSeconds(c)
            && claims.issuedAt - CLOCK_SKEW <= now <= claims.expiresAt
  {
    hide Authenticate, TtlSeconds;
    var claims := VerifyWith(read, c, mac, token, now).value;
    assert Int64.Fits(claims.issuedAt) && Int64.Fits(claims.expiresAt);
  }

  /** Whatever the token string, the instants at which one service accepts it span at most ttl + 30 seconds. */
  lemma {:induction false} AcceptedTokenBound(
    read: string -> Result<Claims, TokenError>, c: Config, mac: (Bytes, string) -> Bytes, token: string,
    now: int, later: int)
    requires ReadsInt64(read) && Int64.Fits(now) && Int64.Fits(later)
    requires VerifyWith(read, c, mac, token, now).Ok? && VerifyWith(read, c, mac, token, later).Ok?
    ensures later - now <= TtlSeconds(c) + CLOCK_SKEW
    ensures VerifyWith(read, c, mac, token, now) == VerifyWith(read, c, mac, token, later)
  {
    AcceptedWindow(read, c, mac, token, now);
    AcceptedWindow(read, c, mac, token, later);
    hide Authenticate, TtlSeconds, ReadsInt64;
  }

  /**
    An accepted token is nothing but a payload with claims, a dot, and a text for the MAC of that
    very payload under the active or the previous key.
   */
  lemma {:induction false} AcceptedIsSigned(
    read: string -> Result<Claims, TokenError>, c: Config, mac: (Bytes, string) -> Bytes, token: string, now: int)
    requires VerifyWith(read, c, mac, token, now).Ok?
    ensures exists payload, sig ::
      && token == payload + "." + sig && '.' !in payload
      && read(payload) == Ok(VerifyWith(read, c, mac, token, now).value)
      && Base64Url.Decode(sig).Some?
      && (Base64Url.Decode(sig).value == mac(c.secretKey, payload)
          || (c.previousKey != [] && Base64Url.Decode(sig).value == mac(c.previousKey, payload)))
  {
    hide Base64Url.Decode, Utf8.Encode, SplitDot, Judge;
    SplitJoins(token);
    var (payload, sig) := SplitDot(token).value;
    assert token == payload + "." + sig;
  }
}
