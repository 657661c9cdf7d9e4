/** Unpadded base64url as encoding/base64.RawURLEncoding does it (sections 5 and 3.2 of RFC 4648). */
module Base64Url {
  import opened Common

  type Byte = b: int | 0 <= b < 256

  predicate InAlphabet(c: char) {
    'A' <= c <= 'Z' || 'a' <= c <= 'z' || '0' <= c <= '9' || c == '-' || c == '_'
  }

  function Digit(i: nat): (c: char)
    requires i < 64
    ensures InAlphabet(c)
  {
    if i < 26 then ('A' as int + i) as char
    else if i < 52 then ('a' as int + (i - 26)) as char
    else if i < 62 then ('0' as int + (i - 52)) as char
    else if i == 62 then '-'
    else '_'
  }

  function Value(c: char): (r: Option<nat>)
    ensures r.Some? <==> InAlphabet(c)
    ensures r.Some? ==> r.value < 64
  {
    if 'A' <= c <= 'Z' then Some(c as int - 'A' as int)
    else if 'a' <= c <= 'z' then Some(c as int - 'a' as int + 26)
    else if '0' <= c <= '9' then Some(c as int - '0' as int + 52)
    else if c == '-' then Some(62)
    else if c == '_' then Some(63)
    else None
  }

  lemma {:induction false} DigitValue(i: nat)
    requires i < 64
    ensures Value(Digit(i)) == Some(i)
  {
  }

  function Encode(b: seq<Byte>): string {
    if |b| == 0 then ""
    else if |b| == 1 then [Digit(b[0] / 4), Digit(b[0] % 4 * 16)]
    else if |b| == 2 then [Digit(b[0] / 4), Digit(b[0] % 4 * 16 + b[1] / 16), Digit(b[1] % 16 * 4)]
    else
      [Digit(b[0] / 4), Digit(b[0] % 4 * 16 + b[1] / 16), Digit(b[1] % 16 * 4 + b[2] / 64), Digit(b[2] % 64)]
      + Encode(b[3..])
  }

  /** The decoder ignores line breaks wherever they stand. */
  function Unbroken(s: string): string {
    if s == "" then ""
    else (if s[0] == '\r' || s[0] == '\n' then "" else [s[0]]) + Unbroken(s[1..])
  }

  function DecodeDigits(s: string): Option<seq<Byte>> {
    if |s| == 0 then Some([])
    else if |s| == 1 || Value(s[0]).None? || Value(s[1]).None? then None
    else if |s| == 2 then Some([Value(s[0]).value * 4 + Value(s[1]).value / 16])
    else if Value(s[2]).None? then None
    else if |s| == 3 then
      Some([Value(s[0]).value * 4 + Value(s[1]).value / 16, Value(s[1]).value % 16 * 16 + Value(s[2]).value / 4])
    else if Value(s[3]).None? then None
    else
      match DecodeDigits(s[4..])
      case None => None
      case Some(rest) => Some([
          Value(s[0]).value * 4 + Value(s[1]).value / 16,
          Value(s[1]).value % 16 * 16 + Value(s[2]).value / 4,
          Value(s[2]).value % 4 * 64 + Value(s[3]).value] + rest)
  }

  function Decode(s: string): Option<seq<Byte>> {
    DecodeDigits(Unbroken(s))
  }

  /** Only alphabet characters come out: in particular no '.', no '=' and no line break. */
  lemma {:induction false} EncodeAlphabet(b: seq<Byte>)
    ensures forall c :: c in Encode(b) ==> InAlphabet(c)
  {
    hide InAlphabet, Digit;
    if |b| >= 3 {
      EncodeAlphabet(b[3..]);
    }
  }

  /** Six bits a character: the length is eight sixths of the input's, rounded up. */
  lemma {:induction false} EncodeLength(b: seq<Byte>)
    ensures 3 * |Encode(b)| == 4 * |b| + (if |b| % 3 == 0 then 0 else if |b| % 3 == 1 then 2 else 1)
  {
    hide InAlphabet, Digit;
    if |b| >= 3 {
      EncodeLength(b[3..]);
    }
  }

  predicate LineBreak(c: char) {
    c == '\r' || c == '\n'
  }

  lemma {:induction false} UnbrokenClean(s: string)
    requires forall c :: c in s ==> !LineBreak(c)
    ensures Unbroken(s) == s
  {
    if s != "" {
      assert s[0] in s && forall c :: c in s[1..] ==> c in s;
      UnbrokenClean(s[1..]);
    }
  }

  /** Regrouping three bytes into four digits and back; short groups are padded with zeros. */
  lemma {:induction false} Regroup(x: Byte, y: Byte, z: Byte)
    ensures var d1, d2 := x % 4 * 16 + y / 16, y % 16 * 4 + z / 64;
            x / 4 * 4 + d1 / 16 == x && d1 % 16 * 16 + d2 / 4 == y && d2 % 4 * 64 + z % 64 == z
  {
  }

  lemma {:induction false} DecodeDigitsEncode(b: seq<Byte>)
    ensures DecodeDigits(Encode(b)) == Some(b)
  {
    hide Digit, Value, InAlphabet;
    if |b| >= 1 {
      Regroup(b[0], if |b| > 1 then b[1] else 0, if |b| > 2 then b[2] else 0);
      DigitValue(b[0] / 4);
      DigitValue(b[0] % 4 * 16);
    }
    if |b| >= 2 {
      DigitValue(b[0] % 4 * 16 + b[1] / 16);
      DigitValue(b[1] % 16 * 4);
    }
    if |b| >= 3 {
      DigitValue(b[1] % 16 * 4 + b[2] / 64);
      DigitValue(b[2] % 64);
      DecodeDigitsEncode(b[3..]);
      assert Encode(b)[4..] == Encode(b[3..]);
      assert b == [b[0], b[1], b[2]] + b[3..];
    } else {
      assert b == if |b| == 0 then [] else if |b| == 1 then [b[0]] else [b[0], b[1]];
    }
  }

  /** Decoding undoes encoding, for every byte string. */
  lemma {:induction false} RoundTrip(b: seq<Byte>)
    ensures Decode(Encode(b)) == Some(b)
  {
    EncodeAlphabet(b);
    UnbrokenClean(Encode(b));
    DecodeDigitsEncode(b);
  }

  lemma {:induction false} ValueDigit(c: char)
    requires Value(c).Some?
    ensures Digit(Value(c).value) == c
  {
  }

  /** The low bits that a last, short group does not use are zero. */
  predicate SpareBitsZero(s: string) {
    && (|s| % 4 == 2 ==> Value(s[|s| - 1]).Some? && Value(s[|s| - 1]).value % 16 == 0)
    && (|s| % 4 == 3 ==> Value(s[|s| - 1]).Some? && Value(s[|s| - 1]).value % 4 == 0)
  }

  /** Regrouping four digits into three bytes and back. */
  lemma {:induction false} RegroupDigits(v0: nat, v1: nat, v2: nat, v3: nat)
    requires v0 < 64 && v1 < 64 && v2 < 64 && v3 < 64
    ensures var b0, b1, b2 := v0 * 4 + v1 / 16, v1 % 16 * 16 + v2 / 4, v2 % 4 * 64 + v3;
            && b0 < 256 && b1 < 256 && b2 < 256
            && b0 / 4 == v0 && b0 % 4 * 16 + b1 / 16 == v1 && b1 % 16 * 4 + b2 / 64 == v2 && b2 % 64 == v3
            && b0 % 4 * 16 == v1 - v1 % 16 && b1 % 16 * 4 == v2 - v2 % 4
  {
  }

  lemma {:induction false} EncodeOne(x: Byte)
    ensures Encode([x]) == [Digit(x / 4), Digit(x % 4 * 16)]
  {
  }

  lemma {:induction false} EncodeTwo(x: Byte, y: Byte)
    ensures Encode([x, y]) == [Digit(x / 4), Digit(x % 4 * 16 + y / 16), Digit(y % 16 * 4)]
  {
  }

  lemma {:induction false} EncodeThree(x: Byte, y: Byte, z: Byte, rest: seq<Byte>)
    ensures Encode([x, y, z] + rest)
            == [Digit(x / 4), Digit(x % 4 * 16 + y / 16), Digit(y % 16 * 4 + z / 64), Digit(z % 64)] + Encode(rest)
  {
    assert ([x, y, z] + rest)[3..] == rest;
  }

  /** A digit is the character it is read from, exactly if nothing was cut off its value. */
  lemma {:induction false} SameDigit(c: char, v: nat, cut: nat)
    requires Value(c) == Some(v) && cut <= v
    ensures Digit(v) == c
    ensures Digit(v - cut) == c <==> cut == 0
  {
    ValueDigit(c);
    DigitValue(v - cut);
  }

  lemma {:induction false} TwoDigits(c0: char, c1: char, v0: nat, v1: nat)
    requires Value(c0) == Some(v0) && Value(c1) == Some(v1)
    ensures v0 * 4 + v1 / 16 < 256
    ensures Encode([v0 * 4 + v1 / 16]) == [c0, c1] <==> v1 % 16 == 0
  {
    hide Digit, Value, InAlphabet, Encode;
    RegroupDigits(v0, v1, 0, 0);
    EncodeOne(v0 * 4 + v1 / 16);
    SameDigit(c0, v0, 0);
    SameDigit(c1, v1, v1 % 16);
  }

  lemma {:induction false} ThreeDigits(c0: char, c1: char, c2: char, v0: nat, v1: nat, v2: nat)
    requires Value(c0) == Some(v0) && Value(c1) == Some(v1) && Value(c2) == Some(v2)
    ensures v0 * 4 + v1 / 16 < 256 && v1 % 16 * 16 + v2 / 4 < 256
    ensures Encode([v0 * 4 + v1 / 16, v1 % 16 * 16 + v2 / 4]) == [c0, c1, c2] <==> v2 % 4 == 0
  {
    hide Digit, Value, InAlphabet, Encode;
    RegroupDigits(v0, v1, v2, 0);
    EncodeTwo(v0 * 4 + v1 / 16, v1 % 16 * 16 + v2 / 4);
    SameDigit(c0, v0, 0);
    SameDigit(c1, v1, 0);
    SameDigit(c2, v2, v2 % 4);
  }

  lemma {:induction false} FourDigits(
    c0: char, c1: char, c2: char, c3: char, v0: nat, v1: nat, v2: nat, v3: nat, rest: seq<Byte>)
    requires Value(c0) == Some(v0) && Value(c1) == Some(v1) && Value(c2) == Some(v2) && Value(c3) == Some(v3)
    ensures v0 * 4 + v1 / 16 < 256 && v1 % 16 * 16 + v2 / 4 < 256 && v2 % 4 * 64 + v3 < 256
    ensures Encode([v0 * 4 + v1 / 16, v1 % 16 * 16 + v2 / 4, v2 % 4 * 64 + v3] + rest) == [c0, c1, c2, c3] + Encode(rest)
  {
    hide Digit, Value, InAlphabet, Encode;
    RegroupDigits(v0, v1, v2, v3);
    EncodeThree(v0 * 4 + v1 / 16, v1 % 16 * 16 + v2 / 4, v2 % 4 * 64 + v3, rest);
    SameDigit(c0, v0, 0);
    SameDigit(c1, v1, 0);
    SameDigit(c2, v2, 0);
    SameDigit(c3, v3, 0);
  }

  lemma {:induction false} NothingEncoded()
    ensures Encode([]) == ""
  {
  }

  lemma {:induction false} TailSpare(s: string)
    requires |s| >= 4
    ensures SpareBitsZero(s) <==> SpareBitsZero(s[4..])
  {
    assert |s| > 4 ==> s[4..][|s| - 5] == s[|s| - 1];
  }

  lemma {:induction false} SameTail(s: string, tail: string)
    requires |s| >= 4
    ensures [s[0], s[1], s[2], s[3]] + tail == s <==> tail == s[4..]
  {
    assert s == [s[0], s[1], s[2], s[3]] + s[4..];
    assert ([s[0], s[1], s[2], s[3]] + tail)[4..] == tail;
  }

  lemma {:induction false} EncodeDecodedDigits(s: string)
    requires DecodeDigits(s).Some?
    ensures Encode(DecodeDigits(s).value) == s <==> SpareBitsZero(s)
  {
    hide Encode, Digit, Value, InAlphabet;
    if |s| == 0 {
      NothingEncoded();
    } else if |s| == 2 {
      TwoDigits(s[0], s[1], Value(s[0]).value, Value(s[1]).value);
      assert s == [s[0], s[1]];
    } else if |s| == 3 {
      ThreeDigits(s[0], s[1], s[2], Value(s[0]).value, Value(s[1]).value, Value(s[2]).value);
      assert s == [s[0], s[1], s[2]];
    } else {
      var rest, e := DecodeDigits(s[4..]).value, Encode(DecodeDigits(s[4..]).value);
      EncodeDecodedDigits(s[4..]);
      FourDigits(
        s[0], s[1], s[2], s[3], Value(s[0]).value, Value(s[1]).value, Value(s[2]).value, Value(s[3]).value, rest);
      assert Encode(DecodeDigits(s).value) == [s[0], s[1], s[2], s[3]] + e;
      hide DecodeDigits;
      TailSpare(s);
      SameTail(s, e);
    }
  }

  /**
    The other direction: encoding what was decoded gives the text back exactly when it holds no line
    break and its spare bits are zero, neither of which the decoder asks for.
   */
  lemma {:induction false} EncodeDecoded(s: string)
    requires Decode(s).Some?
    ensures Encode(Decode(s).value) == s <==> (forall c :: c in s ==> !LineBreak(c)) && SpareBitsZero(s)
  {
    EncodeAlphabet(Decode(s).value);
    if forall c :: c in s ==> !LineBreak(c) {
      UnbrokenClean(s);
      EncodeDecodedDigits(s);
    }
  }

  lemma {:induction false} UnbrokenSkips(before: string, after: string)
    ensures Unbroken(before + "\n" + after) == Unbroken(before + after)
  {
    if before == "" {
      assert before + "\n" + after == ['\n'] + after && before + after == after;
    } else {
      assert (before + "\n" + after)[1..] == before[1..] + "\n" + after && (before + after)[1..] == before[1..] + after;
      UnbrokenSkips(before[1..], after);
    }
  }

  lemma {:induction false} BreakIgnored(before: string, after: string)
    ensures Decode(before + "\n" + after) == Decode(before + after)
  {
    UnbrokenSkips(before, after);
  }

  /** Both conditions can fail: three texts for one byte. */
  lemma {:induction false} DecodeNotInjective()
    ensures Decode("AA") == Decode("AB") == Decode("A\nA") == Some([0])
  {
    UnbrokenClean("AA");
    UnbrokenClean("AB");
    assert "A" + "\n" + "A" == "A\nA" && "A" + "A" == "AA";
    BreakIgnored("A", "A");
    hide Unbroken;
  }

  /** Known texts: the example of section 10 of RFC 4648 without padding, and the two characters of section 5. */
  lemma {:induction false} KnownTexts()
    ensures Encode([0x66, 0x6f, 0x6f, 0x62]) == "Zm9vYg"
    ensures Encode([0xfb, 0xff]) == "-_8"
  {
    assert [0x66, 0x6f, 0x6f, 0x62][3..] == [0x62];
  }
}

/** UTF-8 as Go's unicode/utf8 encodes and decodes it. */
module Utf8 {
  import opened Base64Url

  const REPLACEMENT: char := '\U{FFFD}'

  function EncodeRune(c: char): (b: seq<Byte>)
    ensures 1 <= |b| <= 4
  {
    var v := c as int;
    if v < 0x80 then [v]
    else if v < 0x800 then [0xC0 + v / 64, 0x80 + v % 64]
    else if v < 0x10000 then [0xE0 + v / 4096, 0x80 + v / 64 % 64, 0x80 + v % 64]
    else [0xF0 + v / 262144, 0x80 + v / 4096 % 64, 0x80 + v / 64 % 64, 0x80 + v % 64]
  }

  predicate Continuation(b: int) {
    0x80 <= b < 0xC0
  }

  /** The first rune and its width; an invalid byte reads as U+FFFD of width one. */
  function DecodeRune(b: seq<Byte>): (r: (char, nat))
    requires b != []
    ensures 1 <= r.1 <= |b|
  {
    var b0: int := b[0];
    var b1: int := if |b| >= 2 then b[1] else 0;
    var b2: int := if |b| >= 3 then b[2] else 0;
    var b3: int := if |b| >= 4 then b[3] else 0;
    if b0 < 0x80 then (b0 as char, 1)
    else if 0xC2 <= b0 < 0xE0 && Continuation(b1) then (((b0 - 0xC0) * 64 + (b1 - 0x80)) as char, 2)
    else if 0xE0 <= b0 < 0xF0 && Continuation(b1) && Continuation(b2)
         && (b0 == 0xE0 ==> 0xA0 <= b1) && (b0 == 0xED ==> b1 < 0xA0) then
      (((b0 - 0xE0) * 4096 + (b1 - 0x80) * 64 + (b2 - 0x80)) as char, 3)
    else if 0xF0 <= b0 < 0xF5 && Continuation(b1) && Continuation(b2) && Continuation(b3)
         && (b0 == 0xF0 ==> 0x90 <= b1) && (b0 == 0xF4 ==> b1 < 0x90) then
      (((b0 - 0xF0) * 262144 + (b1 - 0x80) * 4096 + (b2 - 0x80) * 64 + (b3 - 0x80)) as char, 4)
    else (REPLACEMENT, 1)
  }

  function Encode(s: string): seq<Byte> {
    if s == "" then [] else EncodeRune(s[0]) + Encode(s[1..])
  }

  function Decode(b: seq<Byte>): string {
    if b == [] then ""
    else
      var (c, n) := DecodeRune(b);
      [c] + Decode(b[n..])
  }

  lemma {:induction false} DecodeEncodedRune(c: char, rest: seq<Byte>)
    ensures DecodeRune(EncodeRune(c) + rest) == (c, |EncodeRune(c)|)
  {
    var v := c as int;
    assert v == v / 64 * 64 + v % 64 && v / 64 == v / 4096 * 64 + v / 64 % 64;
    assert v / 4096 == v / 262144 * 64 + v / 4096 % 64;
  }

  lemma {:induction false} RoundTrip(s: string)
    ensures Decode(Encode(s)) == s
  {
    if s != "" {
      var b, rest := EncodeRune(s[0]), Encode(s[1..]);
      DecodeEncodedRune(s[0], rest);
      RoundTrip(s[1..]);
      assert (b + rest)[|b|..] == rest;
    }
  }

  /** ASCII text is one byte a character. */
  lemma {:induction false} AsciiLength(s: string)
    requires forall c :: c in s ==> c < '\U{80}'
    ensures |Encode(s)| == |s|
  {
    if s != "" {
      assert s[0] in s && forall c :: c in s[1..] ==> c in s;
      AsciiLength(s[1..]);
    }
  }

  /** Known encodings, of one to four bytes. */
  lemma {:induction false} KnownBytes()
    ensures EncodeRune('A') == [0x41] && EncodeRune('\U{E9}') == [0xC3, 0xA9]
    ensures EncodeRune('\U{20AC}') == [0xE2, 0x82, 0xAC] && EncodeRune('\U{10348}') == [0xF0, 0x90, 0x8D, 0x88]
  {
  }
}
