/** Opaque cursor tokens: base64url of the JSON of the keyset position. */
module Cursors {
  import opened Common
  import opened UrlTable
  import Base64Url
  import Int64
  import Json
  import Utf8

  datatype UserCursor = UserCursor(username: string)

  function EncodeCursor(ms: seq<Json.Member>): string {
    Base64Url.Encode(Utf8.Encode(Json.Marshal(ms)))
  }

  function DecodeCursor(raw: string): Option<seq<Json.Member>> {
    match Base64Url.Decode(raw)
    case None => None
    case Some(b) => Json.Unmarshal(Utf8.Decode(b))
  }

  function UrlMembers(c: UrlCursor): seq<Json.Member> {
    [Json.Member("c", Json.Num(c.createdAtUnixNano)), Json.Member("s", Json.Str(c.shortCode))]
  }

  function EncodeUrlCursor(c: UrlCursor): string {
    EncodeCursor(UrlMembers(c))
  }

  /** None is the malformed-cursor error. */
  function DecodeUrlCursor(raw: string): (r: Option<UrlCursor>)
    ensures r.Some? ==> Int64.Fits(r.value.createdAtUnixNano)
  {
    match DecodeCursor(raw)
    case None => None
    case Some(ms) =>
      match (Json.Int64Field(ms, "c"), Json.StringField(ms, "s"))
      case (Some(n), Some(s)) => Some(UrlCursor(n, s))
      case _ => None
  }

  function UserMembers(c: UserCursor): seq<Json.Member> {
    [Json.Member("u", Json.Str(c.username))]
  }

  function EncodeUserCursor(c: UserCursor): string {
    EncodeCursor(UserMembers(c))
  }

  function DecodeUserCursor(raw: string): Option<UserCursor> {
    match DecodeCursor(raw)
    case None => None
    case Some(ms) =>
      match Json.StringField(ms, "u")
      case Some(s) => Some(UserCursor(s))
      case None => None
  }

  lemma {:induction false} CodecRoundTrip(ms: seq<Json.Member>)
    ensures DecodeCursor(EncodeCursor(ms)) == Some(ms)
    ensures forall c :: c in EncodeCursor(ms) ==> Base64Url.InAlphabet(c)
    ensures EncodeCursor(ms) != ""
  {
    var text := Json.Marshal(ms);
    assert text != "";
    assert Utf8.Encode(text) != [];
    assert Base64Url.Encode(Utf8.Encode(text)) != "";
    hide Json.Marshal, Json.Unmarshal, Utf8.Encode, Utf8.Decode, Base64Url.Encode, Base64Url.Decode, Base64Url.InAlphabet;
    Json.RoundTrip(ms);
    Utf8.RoundTrip(text);
    Base64Url.RoundTrip(Utf8.Encode(text));
    Base64Url.EncodeAlphabet(Utf8.Encode(text));
  }

  /** Every int64 timestamp and every code survives the trip through the token. */
  lemma {:induction false} UrlCursorRoundTrip(c: UrlCursor)
    requires Int64.Fits(c.createdAtUnixNano)
    ensures DecodeUrlCursor(EncodeUrlCursor(c)) == Some(c)
    ensures EncodeUrlCursor(c) != "" && forall x :: x in EncodeUrlCursor(c) ==> Base64Url.InAlphabet(x)
  {
    hide DecodeCursor, EncodeCursor, Json.Int64Field, Json.StringField;
    var ms := UrlMembers(c);
    CodecRoundTrip(ms);
    assert "c" != "s";
    Json.FieldFilled(ms, 0);
    Json.FieldFilled(ms, 1);
  }

  lemma {:induction false} UserCursorRoundTrip(c: UserCursor)
    ensures DecodeUserCursor(EncodeUserCursor(c)) == Some(c)
    ensures EncodeUserCursor(c) != "" && forall x :: x in EncodeUserCursor(c) ==> Base64Url.InAlphabet(x)
  {
    hide DecodeCursor, EncodeCursor, Json.StringField;
    CodecRoundTrip(UserMembers(c));
    Json.FieldFilled(UserMembers(c), 0);
  }

  /** What a cursor holds, as text: the field names and their order. */
  lemma {:induction false} UrlCursorJson(c: UrlCursor)
    requires Json.Plain(c.shortCode)
    ensures Json.Marshal(UrlMembers(c))
            == "{\"c\":" + Json.IntText(c.createdAtUnixNano, ",\"s\":\"" + c.shortCode + "\"}")
  {
    var ms := UrlMembers(c);
    assert ms[1..] == [ms[1]];
    hide Json.IntText, Json.Quoted;
    Json.PlainQuoted(c.shortCode, "}");
    var last := Json.MembersText([ms[1]]);
    Json.PlainQuoted("s", [':'] + Json.Quoted(c.shortCode, "}"));
    assert last == "\"" + "s" + "\"" + ([':'] + ("\"" + c.shortCode + "\"" + "}"));
    assert [','] + last == ",\"s\":\"" + c.shortCode + "\"}";
    Json.PlainQuoted("c", [':'] + Json.IntText(c.createdAtUnixNano, [','] + last));
  }

  lemma {:induction false} PlainU()
    ensures Json.Plain("u")
  {
  }

  lemma {:induction false} UserCursorJson(c: UserCursor)
    requires Json.Plain(c.username)
    ensures Json.Marshal(UserMembers(c)) == "{\"u\":\"" + c.username + "\"}"
  {
    hide Json.Quoted, Json.Plain;
    var text := Json.Quoted("u", [':'] + Json.Quoted(c.username, "}"));
    assert Json.Marshal(UserMembers(c)) == ['{'] + text;
    hide Json.Marshal, Json.MembersText, Json.ValueText, UserMembers;
    Json.PlainQuoted(c.username, "}");
    assert Json.Plain("u") by { PlainU(); }
    Json.PlainQuoted("u", [':'] + Json.Quoted(c.username, "}"));
    assert text == "\"" + "u" + "\"" + ([':'] + ("\"" + c.username + "\"" + "}"));
  }
}
