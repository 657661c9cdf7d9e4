/**
  Flat JSON objects of strings and integers, written as encoding/json's Marshal writes them and
  read by the grammar of RFC 8259 (sections 2, 4, 6 and 7).
 */
module Json {
  import opened Common
  import Int64

  datatype Value = Str(s: string) | Num(n: int) | Null

  datatype Member = Member(name: string, value: Value)

  // ----- Strings -----

  function HexDigit(i: nat): char
    requires i < 16
  {
    if i < 10 then ('0' as int + i) as char else ('a' as int + (i - 10)) as char
  }

  function HexValue(c: char): (r: Option<nat>)
    ensures r.Some? ==> r.value < 16
  {
    if '0' <= c <= '9' then Some(c as int - '0' as int)
    else if 'a' <= c <= 'f' then Some(c as int - 'a' as int + 10)
    else if 'A' <= c <= 'F' then Some(c as int - 'A' as int + 10)
    else None
  }

  function Hex4(v: nat): (r: string)
    requires v < 0x10000
    ensures |r| == 4
  {
    [HexDigit(v / 4096), HexDigit(v / 256 % 16), HexDigit(v / 16 % 16), HexDigit(v % 16)]
  }

  /** One character of a string, with Marshal's HTML-safe escapes. */
  function EscapeChar(c: char): (r: string)
    ensures r != ""
  {
    if c == '\"' || c == '\\' then ['\\', c]
    else if c == '\U{08}' then "\\b"
    else if c == '\U{0C}' then "\\f"
    else if c == '\n' then "\\n"
    else if c == '\r' then "\\r"
    else if c == '\t' then "\\t"
    else if c < ' ' || c == '<' || c == '>' || c == '&' || c == '\U{2028}' || c == '\U{2029}' then
      "\\u" + Hex4(c as int)
    else [c]
  }

  // Writers take the text that follows, so that what they write is always a prefix of it.

  /** The body of a string and its closing quote, then rest. */
  function Body(s: string, rest: string): string {
    if s == "" then ['\"'] + rest else EscapeChar(s[0]) + Body(s[1..], rest)
  }

  function Quoted(s: string, rest: string): string {
    ['\"'] + Body(s, rest)
  }

  /** Four hex digits as a code unit. */
  function CodeUnit(t: string): (r: Option<nat>)
    ensures r.Some? ==> r.value < 0x10000 && |t| >= 4
  {
    if |t| < 4 then None
    else
      match (HexValue(t[0]), HexValue(t[1]), HexValue(t[2]), HexValue(t[3]))
      case (Some(a), Some(b), Some(c), Some(d)) => Some(a * 4096 + b * 256 + c * 16 + d)
      case _ => None
  }

  /** A \u escape after its "\u": surrogate pairs combine, lone surrogates read as U+FFFD. */
  function UnescapeUnit(t: string): (r: Option<(char, string)>)
    ensures r.Some? ==> |r.value.1| < |t|
  {
    match CodeUnit(t)
    case None => None
    case Some(u) =>
      if 0xD800 <= u < 0xDC00 then
        var low := if |t| >= 6 && t[4] == '\\' && t[5] == 'u' then CodeUnit(t[6..]) else None;
        if low.Some? && 0xDC00 <= low.value < 0xE000 then
          Some(((0x10000 + (u - 0xD800) * 0x400 + (low.value - 0xDC00)) as char, t[10..]))
        else Some(('\U{FFFD}', t[4..]))
      else if 0xDC00 <= u < 0xE000 then Some(('\U{FFFD}', t[4..]))
      else Some((u as char, t[4..]))
  }

  /** The next character of a string's body, and the text after it. */
  function ParseChar(t: string): (r: Option<(char, string)>)
    requires t != ""
    ensures r.Some? ==> |r.value.1| < |t|
  {
    if t[0] < ' ' then None
    else if t[0] != '\\' then Some((t[0], t[1..]))
    else if |t| == 1 then None
    else
      match t[1]
      case '\"' => Some(('\"', t[2..]))
      case '\\' => Some(('\\', t[2..]))
      case '/' => Some(('/', t[2..]))
      case 'b' => Some(('\U{08}', t[2..]))
      case 'f' => Some(('\U{0C}', t[2..]))
      case 'n' => Some(('\n', t[2..]))
      case 'r' => Some(('\r', t[2..]))
      case 't' => Some(('\t', t[2..]))
      case 'u' => UnescapeUnit(t[2..])
      case _ => None
  }

  datatype Parsed<T> = Fail | Done(value: T, rest: string)

  /** The rest of a string after its opening quote. */
  function ParseString(t: string): (r: Parsed<string>)
    ensures r.Done? ==> |r.rest| < |t|
    decreases |t|
  {
    if t == "" then Fail
    else if t[0] == '\"' then Done("", t[1..])
    else
      match ParseChar(t)
      case None => Fail
      case Some((c, t')) =>
        match ParseString(t')
        case Fail => Fail
        case Done(s, rest) => Done([c] + s, rest)
  }

  lemma {:induction false} HexRoundTrip(i: nat)
    requires i < 16
    ensures HexValue(HexDigit(i)) == Some(i)
  {
  }

  lemma {:induction false} Nibbles(v: nat)
    ensures v == v / 4096 * 4096 + v / 256 % 16 * 256 + v / 16 % 16 * 16 + v % 16
  {
    assert v / 256 == v / 4096 * 16 + v / 256 % 16;
    assert v / 16 == v / 256 * 16 + v / 16 % 16;
  }

  lemma {:induction false} HexUnit(v: nat, rest: string)
    requires v < 0x10000
    ensures CodeUnit(Hex4(v) + rest) == Some(v) && (Hex4(v) + rest)[4..] == rest
  {
    hide HexDigit, HexValue;
    var a, b, c, d := v / 4096, v / 256 % 16, v / 16 % 16, v % 16;
    assert v == a * 4096 + b * 256 + c * 16 + d by { Nibbles(v); }
    HexRoundTrip(a);
    HexRoundTrip(b);
    HexRoundTrip(c);
    HexRoundTrip(d);
  }

  lemma {:induction false} ParseEscapedUnit(v: nat, rest: string)
    requires v < 0xD800
    ensures UnescapeUnit(Hex4(v) + rest) == Some((v as char, rest))
  {
    hide CodeUnit, Hex4;
    HexUnit(v, rest);
  }

  lemma {:induction false} Cons(c: char, rest: string)
    ensures ([c] + rest)[0] == c && ([c] + rest)[1..] == rest
  {
  }

  lemma {:induction false} Cons2(c: char, d: char, rest: string)
    ensures var t := [c, d] + rest; t[0] == c && t[1] == d && t[2..] == rest
  {
  }

  lemma {:induction false} ParseEscapedChar(c: char, rest: string)
    ensures EscapeChar(c)[0] != '\"'
    ensures ParseChar(EscapeChar(c) + rest) == Some((c, rest))
  {
    var e := EscapeChar(c);
    hide Hex4, UnescapeUnit;
    if |e| == 1 {
      Cons(c, rest);
    } else if |e| == 2 {
      assert e == [e[0], e[1]];
      Cons2(e[0], e[1], rest);
    } else {
      var u := Hex4(c as int);
      assert e + rest == ['\\', 'u'] + (u + rest);
      Cons2('\\', 'u', u + rest);
      ParseEscapedUnit(c as int, rest);
    }
  }

  lemma {:induction false} FirstOf(s: string, t: string)
    ensures s != "" ==> (s + t)[0] == s[0]
  {
  }

  /** Reading a written string gives it back and stops right after its closing quote. */
  lemma {:induction false} StringRoundTrip(s: string, rest: string)
    ensures ParseString(Body(s, rest)) == Done(s, rest)
  {
    hide EscapeChar, ParseChar;
    if s == "" {
      Cons('\"', rest);
    } else {
      var tail := Body(s[1..], rest);
      ParseEscapedChar(s[0], tail);
      StringRoundTrip(s[1..], rest);
      FirstOf(EscapeChar(s[0]), tail);
      assert s == [s[0]] + s[1..];
    }
  }

  lemma {:induction false} QuotedRoundTrip(s: string, rest: string)
    ensures var t := Quoted(s, rest); t != "" && t[0] == '\"' && ParseString(t[1..]) == Done(s, rest)
  {
    hide Body, ParseString;
    Cons('\"', Body(s, rest));
    StringRoundTrip(s, rest);
  }

  // ----- Integers -----

  predicate IsDigit(c: char) {
    '0' <= c <= '9'
  }

  function DigitOf(d: nat): (c: char)
    requires d < 10
    ensures IsDigit(c) && c as int == '0' as int + d
  {
    ('0' as int + d) as char
  }

  function NatText(n: nat, rest: string): (r: string)
    ensures r != "" && IsDigit(r[0]) && (n > 0 ==> r[0] != '0') && (n == 0 ==> r == ['0'] + rest)
  {
    if n < 10 then [DigitOf(n)] + rest else NatText(n / 10, [DigitOf(n % 10)] + rest)
  }

  function IntText(n: int, rest: string): (r: string)
    ensures r != "" && (r[0] == '-' || IsDigit(r[0]))
  {
    if n < 0 then ['-'] + NatText(-n, rest) else NatText(n, rest)
  }

  function ParseDigits(t: string, acc: nat): (r: (nat, string))
    ensures |r.1| <= |t| && (t != "" && IsDigit(t[0]) ==> |r.1| < |t|)
  {
    if t == "" || !IsDigit(t[0]) then (acc, t)
    else ParseDigits(t[1..], acc * 10 + (t[0] as int - '0' as int))
  }

  /** What may not follow an integer literal: more digits, a fraction or an exponent. */
  predicate EndsNumber(t: string) {
    t == "" || !(IsDigit(t[0]) || t[0] == '.' || t[0] == 'e' || t[0] == 'E')
  }

  function ParseNat(t: string): (r: Parsed<nat>)
    ensures r.Done? ==> |r.rest| < |t|
  {
    if t == "" || !IsDigit(t[0]) then Fail
    else
      var (n, rest) := if t[0] == '0' then (0, t[1..]) else ParseDigits(t, 0);
      if EndsNumber(rest) then Done(n, rest) else Fail
  }

  function ParseInt(t: string): (r: Parsed<int>)
    ensures r.Done? ==> |r.rest| < |t|
  {
    if t != "" && t[0] == '-' then
      match ParseNat(t[1..])
      case Fail => Fail
      case Done(n, rest) => var m: int := n; Done(-m, rest)
    else
      match ParseNat(t)
      case Fail => Fail
      case Done(n, rest) => Done(n, rest)
  }

  lemma {:induction false} DigitsRoundTrip(n: nat, rest: string)
    ensures ParseDigits(NatText(n, rest), 0) == ParseDigits(rest, n)
  {
    var d := DigitOf(n % 10);
    Cons(d, rest);
    if n >= 10 {
      DigitsRoundTrip(n / 10, [d] + rest);
    }
  }

  lemma {:induction false} NatRoundTrip(n: nat, rest: string)
    requires EndsNumber(rest)
    ensures ParseNat(NatText(n, rest)) == Done(n, rest)
  {
    if n == 0 {
      Cons('0', rest);
    } else {
      DigitsRoundTrip(n, rest);
    }
  }

  lemma {:induction false} IntRoundTrip(n: int, rest: string)
    requires EndsNumber(rest)
    ensures ParseInt(IntText(n, rest)) == Done(n, rest)
  {
    hide NatText, ParseNat;
    if n < 0 {
      NatRoundTrip(-n, rest);
      Cons('-', NatText(-n, rest));
    } else {
      NatRoundTrip(n, rest);
    }
  }

  // ----- Objects -----

  function ValueText(v: Value, rest: string): string {
    match v
    case Str(s) => Quoted(s, rest)
    case Num(n) => IntText(n, rest)
    case Null => "null" + rest
  }

  function MembersText(ms: seq<Member>): string
    requires ms != []
  {
    var rest := if |ms| == 1 then "}" else [','] + MembersText(ms[1..]);
    Quoted(ms[0].name, [':'] + ValueText(ms[0].value, rest))
  }

  function Marshal(ms: seq<Member>): string {
    ['{'] + (if ms == [] then "}" else MembersText(ms))
  }

  function SkipSpace(t: string): (r: string)
    ensures |r| <= |t|
  {
    if t != "" && (t[0] == ' ' || t[0] == '\t' || t[0] == '\n' || t[0] == '\r') then SkipSpace(t[1..]) else t
  }

  lemma {:induction false} NoSpace(t: string)
    requires t == "" || t[0] !in " \t\n\r"
    ensures SkipSpace(t) == t
  {
  }

  function ParseValue(t: string): (r: Parsed<Value>)
    ensures r.Done? ==> |r.rest| < |t|
  {
    if t == "" then Fail
    else if t[0] == '\"' then
      match ParseString(t[1..])
      case Fail => Fail
      case Done(s, rest) => Done(Str(s), rest)
    else if |t| >= 4 && t[..4] == "null" then Done(Null, t[4..])
    else
      match ParseInt(t)
      case Fail => Fail
      case Done(n, rest) => Done(Num(n), rest)
  }

  function ParseMember(t: string): (r: Parsed<Member>)
    ensures r.Done? ==> |r.rest| < |t|
  {
    if t == "" || t[0] != '\"' then Fail
    else
      match ParseString(t[1..])
      case Fail => Fail
      case Done(name, rest) =>
        var t1 := SkipSpace(rest);
        if t1 == "" || t1[0] != ':' then Fail
        else
          match ParseValue(SkipSpace(t1[1..]))
          case Fail => Fail
          case Done(v, rest2) => Done(Member(name, v), rest2)
  }

  function ParseMembers(t: string): (r: Parsed<seq<Member>>)
    decreases |t|
  {
    match ParseMember(t)
    case Fail => Fail
    case Done(m, rest) =>
      var t1 := SkipSpace(rest);
      if t1 == "" then Fail
      else if t1[0] == '}' then Done([m], t1[1..])
      else if t1[0] != ',' then Fail
      else
        match ParseMembers(SkipSpace(t1[1..]))
        case Fail => Fail
        case Done(ms, rest2) => Done([m] + ms, rest2)
  }

  function Unmarshal(text: string): Option<seq<Member>> {
    var t := SkipSpace(text);
    if t == "" || t[0] != '{' then None
    else
      var t1 := SkipSpace(t[1..]);
      var r := if t1 != "" && t1[0] == '}' then Done([], t1[1..]) else ParseMembers(t1);
      if r.Done? && SkipSpace(r.rest) == "" then Some(r.value) else None
  }

  lemma {:induction false} NumberRoundTrip(n: int, rest: string)
    requires EndsNumber(rest)
    ensures var t := IntText(n, rest); ParseValue(t) == Done(Num(n), rest) && SkipSpace(t) == t
  {
    var t := IntText(n, rest);
    hide IntText, ParseInt, ParseString;
    IntRoundTrip(n, rest);
    assert |t| >= 4 ==> t[..4][0] == t[0] != 'n';
  }

  lemma {:induction false} ValueRoundTrip(v: Value, rest: string)
    requires EndsNumber(rest)
    ensures var t := ValueText(v, rest); ParseValue(t) == Done(v, rest) && SkipSpace(t) == t
  {
    match v
    case Str(s) =>
      hide Quoted, ParseString;
      QuotedRoundTrip(s, rest);
    case Num(n) => NumberRoundTrip(n, rest);
    case Null =>
      assert ("null" + rest)[..4] == "null" && ("null" + rest)[4..] == rest;
  }

  lemma {:induction false} MemberRoundTrip(m: Member, rest: string)
    requires EndsNumber(rest)
    ensures var t := Quoted(m.name, [':'] + ValueText(m.value, rest));
            t != "" && t[0] == '\"' && ParseMember(t) == Done(m, rest)
  {
    var body := ValueText(m.value, rest);
    hide ParseString, ParseValue, Quoted, ValueText, EndsNumber;
    ValueRoundTrip(m.value, rest);
    Cons(':', body);
    NoSpace([':'] + body);
    QuotedRoundTrip(m.name, [':'] + body);
  }

  lemma {:induction false} LastMember(t: string, m: Member)
    requires ParseMember(t) == Done(m, "}")
    ensures ParseMembers(t) == Done([m], "")
  {
    hide ParseMember;
    NoSpace("}");
    assert "}"[1..] == "";
  }

  lemma {:induction false} MoreMembers(t: string, m: Member, tail: string, ms: seq<Member>)
    requires ParseMember(t) == Done(m, [','] + tail)
    requires tail != "" && tail[0] == '\"' && ParseMembers(tail) == Done(ms, "")
    ensures ParseMembers(t) == Done([m] + ms, "")
  {
    hide ParseMember, SkipSpace;
    Cons(',', tail);
    NoSpace([','] + tail);
    NoSpace(tail);
  }

  lemma {:induction false} MembersRoundTrip(ms: seq<Member>)
    requires ms != []
    ensures ParseMembers(MembersText(ms)) == Done(ms, "")
    ensures MembersText(ms) != "" && MembersText(ms)[0] == '\"'
    decreases |ms|
  {
    hide ParseMember, ParseMembers, Quoted, ValueText;
    if |ms| > 1 {
      MemberRoundTrip(ms[0], [','] + MembersText(ms[1..]));
      MembersRoundTrip(ms[1..]);
      MoreMembers(MembersText(ms), ms[0], MembersText(ms[1..]), ms[1..]);
      assert ms == [ms[0]] + ms[1..];
    } else {
      MemberRoundTrip(ms[0], "}");
      LastMember(MembersText(ms), ms[0]);
      assert ms == [ms[0]];
    }
  }

  /** Reading back what Marshal wrote gives the same members in the same order. */
  lemma {:induction false} RoundTrip(ms: seq<Member>)
    ensures Unmarshal(Marshal(ms)) == Some(ms)
  {
    if ms == [] {
      assert Unmarshal("{}") == Some([]) by { assert "{}"[1..] == "}" && "}"[1..] == ""; }
      Cons('{', "}");
      assert "}"[1..] == "";
    } else {
      MembersRoundTrip(ms);
      hide MembersText, ParseMembers, SkipSpace;
      Cons('{', MembersText(ms));
      NoSpace(Marshal(ms));
      NoSpace(MembersText(ms));
      NoSpace("");
    }
  }

  predicate Plain(s: string) {
    forall c :: c in s ==> '0' <= c <= '9' || 'A' <= c <= 'Z' || 'a' <= c <= 'z'
  }

  lemma {:induction false} PlainChar(c: char)
    requires '0' <= c <= '9' || 'A' <= c <= 'Z' || 'a' <= c <= 'z'
    ensures EscapeChar(c) == [c]
  {
  }

  lemma {:induction false} PlainBody(s: string, rest: string)
    requires Plain(s)
    ensures Body(s, rest) == s + "\"" + rest
  {
    if s == "" {
      assert Body(s, rest) == "\"" + rest;
    } else {
      assert s[0] in s && forall c :: c in s[1..] ==> c in s;
      PlainBody(s[1..], rest);
      PlainChar(s[0]);
      hide EscapeChar;
      assert s == [s[0]] + s[1..];
    }
  }

  /** Letters and digits are written as they are. */
  lemma {:induction false} PlainQuoted(s: string, rest: string)
    requires Plain(s)
    ensures Quoted(s, rest) == "\"" + s + "\"" + rest
  {
    PlainBody(s, rest);
  }

  // ----- Filling struct fields -----

  /** A string field: the last value given, "" if none; None when some value has the wrong type. */
  function StringField(ms: seq<Member>, name: string): Option<string> {
    if ms == [] then Some("")
    else
      var n := |ms| - 1;
      match StringField(ms[..n], name)
      case None => None
      case Some(before) =>
        if ms[n].name != name || ms[n].value.Null? then Some(before)
        else if ms[n].value.Str? then Some(ms[n].value.s)
        else None
  }

  /** An int64 field: the last value given, 0 if none; None for a wrong type or a value out of range. */
  function Int64Field(ms: seq<Member>, name: string): (r: Option<int>)
    ensures r.Some? ==> Int64.Fits(r.value)
  {
    if ms == [] then Some(0)
    else
      var n := |ms| - 1;
      match Int64Field(ms[..n], name)
      case None => None
      case Some(before) =>
        if ms[n].name != name || ms[n].value.Null? then Some(before)
        else if ms[n].value.Num? && Int64.Fits(ms[n].value.n) then Some(ms[n].value.n)
        else None
  }

  lemma {:induction false} FieldAbsent(ms: seq<Member>, name: string)
    requires forall m :: m in ms ==> m.name != name
    ensures StringField(ms, name) == Some("") && Int64Field(ms, name) == Some(0)
  {
    if ms != [] {
      assert ms[|ms| - 1] in ms;
      FieldAbsent(ms[..|ms| - 1], name);
    }
  }

  /** A field named once is filled with exactly its value. */
  lemma {:induction false} FieldFilled(ms: seq<Member>, i: nat)
    requires i < |ms| && forall j :: 0 <= j < |ms| && j != i ==> ms[j].name != ms[i].name
    ensures ms[i].value.Str? ==> StringField(ms, ms[i].name) == Some(ms[i].value.s)
    ensures ms[i].value.Num? && Int64.Fits(ms[i].value.n) ==> Int64Field(ms, ms[i].name) == Some(ms[i].value.n)
  {
    var n := |ms| - 1;
    if i == n {
      FieldAbsent(ms[..n], ms[i].name);
    } else {
      FieldFilled(ms[..n], i);
    }
  }
}
