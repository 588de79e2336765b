/**
 encodeURIComponent and decodeURIComponent (ECMAScript, with UTF-8 as in RFC 3629 and percent-encoding as
 in section 2.1 of RFC 3986). A string is a sequence of Unicode scalar values; lone surrogates, on which
 the encoder throws, do not occur in it.
 */
module UriComponent {
  import opened Prelude

  /** The characters the encoder leaves alone. */
  predicate Unreserved(c: char) {
    || 'A' <= c <= 'Z' || 'a' <= c <= 'z' || '0' <= c <= '9'
    || c == '-' || c == '_' || c == '.' || c == '!' || c == '~' || c == '*' || c == '\'' || c == '(' || c == ')'
  }

  function HexDigit(n: nat): (c: char)
    requires n < 16
    ensures HexValue(c) == Some(n) && Unreserved(c)
  {
    if n < 10 then '0' + (n as char) else 'A' + ((n - 10) as char)
  }

  function HexValue(c: char): Option<nat> {
    if '0' <= c <= '9' then Some((c - '0') as nat)
    else if 'A' <= c <= 'F' then Some((c - 'A') as nat + 10)
    else if 'a' <= c <= 'f' then Some((c - 'a') as nat + 10)
    else None
  }

  type Byte = b: nat | b < 256

  function Utf8(c: char): seq<Byte> {
    var n := c as int;
    if n < 0x80 then [n]
    else if n < 0x800 then [0xC0 + n / 64, 0x80 + n % 64]
    else if n < 0x10000 then [0xE0 + n / 4096, 0x80 + n / 64 % 64, 0x80 + n % 64]
    else [0xF0 + n / 262144, 0x80 + n / 4096 % 64, 0x80 + n / 64 % 64, 0x80 + n % 64]
  }

  function PercentByte(b: Byte): string {
    ['%', HexDigit(b / 16), HexDigit(b % 16)]
  }

  function PercentBytes(bs: seq<Byte>): string {
    if bs == [] then "" else PercentByte(bs[0]) + PercentBytes(bs[1..])
  }

  function EncodeChar(c: char): string {
    if Unreserved(c) then [c] else PercentBytes(Utf8(c))
  }

  function Encode(s: string): string {
    if s == "" then "" else EncodeChar(s[0]) + Encode(s[1..])
  }

  // ---------------------------------------------------------------- decoding

  /** One `%XX` escape at the front. */
  function ReadByte(s: string): (b: Option<Byte>)
    ensures b.Some? ==> |s| >= 3
  {
    if |s| >= 3 && s[0] == '%' && HexValue(s[1]).Some? && HexValue(s[2]).Some?
       && HexValue(s[1]).value < 16 && HexValue(s[2]).value < 16
    then Some(16 * HexValue(s[1]).value + HexValue(s[2]).value)
    else None
  }

  /** One escape holding a UTF-8 continuation byte: its six payload bits. */
  function ReadContinuation(s: string): (b: Option<nat>)
    ensures b.Some? ==> |s| >= 3 && b.value < 64
  {
    match ReadByte(s)
    case Some(b) => if 0x80 <= b < 0xC0 then Some(b - 0x80) else None
    case None => None
  }

  predicate IsScalar(n: nat) {
    n < 0xD800 || 0xE000 <= n < 0x11_0000
  }

  /** The character escaped at the front and what follows it; None where the decoder throws URIError. */
  function ReadEscape(s: string): (r: Option<(char, string)>)
    ensures r.Some? ==> |r.value.1| < |s|
  {
    match ReadByte(s)
    case None => None
    case Some(b) =>
      if b < 0x80 then Some((b as char, s[3..]))
      else if 0xC0 <= b < 0xE0 then ReadTwo(b, s[3..])
      else if 0xE0 <= b < 0xF0 then ReadThree(b, s[3..])
      else if 0xF0 <= b < 0xF8 then ReadFour(b, s[3..])
      else None
  }

  function ReadTwo(b: nat, s: string): (r: Option<(char, string)>)
    requires 0xC0 <= b < 0xE0
    ensures r.Some? ==> |r.value.1| < |s|
  {
    match ReadContinuation(s)
    case None => None
    case Some(c1) =>
      var n := (b - 0xC0) * 64 + c1;
      if 0x80 <= n then Some((n as char, s[3..])) else None
  }

  function ReadThree(b: nat, s: string): (r: Option<(char, string)>)
    requires 0xE0 <= b < 0xF0
    ensures r.Some? ==> |r.value.1| < |s|
  {
    match ReadContinuation(s)
    case None => None
    case Some(c1) =>
      match ReadContinuation(s[3..])
      case None => None
      case Some(c2) =>
        var n := (b - 0xE0) * 4096 + c1 * 64 + c2;
        if 0x800 <= n && IsScalar(n) then Some((n as char, s[6..])) else None
  }

  function ReadFour(b: nat, s: string): (r: Option<(char, string)>)
    requires 0xF0 <= b < 0xF8
    ensures r.Some? ==> |r.value.1| < |s|
  {
    match ReadContinuation(s)
    case None => None
    case Some(c1) =>
      match ReadContinuation(s[3..])
      case None => None
      case Some(c2) =>
        match ReadContinuation(s[6..])
        case None => None
        case Some(c3) =>
          var n := (b - 0xF0) * 262144 + c1 * 4096 + c2 * 64 + c3;
          if 0x10000 <= n && IsScalar(n) then Some((n as char, s[9..])) else None
  }

  /** None: URIError. */
  function Decode(s: string): Option<string>
    decreases |s|
  {
    if s == "" then Some("")
    else if s[0] != '%' then
      match Decode(s[1..])
      case Some(rest) => Some([s[0]] + rest)
      case None => None
    else
      match ReadEscape(s)
      case None => None
      case Some(r) =>
        match Decode(r.1)
        case Some(rest) => Some([r.0] + rest)
        case None => None
  }

  // ---------------------------------------------------------------- round trip

  lemma ReadPercentByte(b: Byte, rest: string)
    ensures ReadByte(PercentByte(b) + rest) == Some(b)
    ensures (PercentByte(b) + rest)[3..] == rest
  {
  }

  /** The escape of a continuation byte reads back as its payload. */
  lemma ReadPercentContinuation(payload: nat, rest: string)
    requires payload < 64
    ensures ReadContinuation(PercentByte(0x80 + payload) + rest) == Some(payload)
    ensures (PercentByte(0x80 + payload) + rest)[3..] == rest
  {
    ReadPercentByte(0x80 + payload, rest);
  }

  lemma OneByte(b: Byte, rest: string)
    ensures PercentBytes([b]) + rest == PercentByte(b) + rest
  {
    assert [b][1..] == [];
  }

  lemma MoreBytes(b: Byte, bs: seq<Byte>, rest: string)
    ensures PercentBytes([b] + bs) + rest == PercentByte(b) + (PercentBytes(bs) + rest)
  {
    assert ([b] + bs)[1..] == bs;
  }

  // Reading the continuation escapes back, without looking at how the payloads arose.

  lemma ReadTwoBack(b0: nat, x1: nat, rest: string)
    requires 0xC0 <= b0 < 0xE0 && x1 < 64 && 0x80 <= (b0 - 0xC0) * 64 + x1
    ensures ReadTwo(b0, PercentByte(0x80 + x1) + rest) == Some((((b0 - 0xC0) * 64 + x1) as char, rest))
  {
    ReadPercentContinuation(x1, rest);
    hide PercentByte, ReadContinuation;
  }

  lemma ReadThreeBack(b0: nat, x1: nat, x2: nat, rest: string)
    requires 0xE0 <= b0 < 0xF0 && x1 < 64 && x2 < 64
    requires var n := (b0 - 0xE0) * 4096 + x1 * 64 + x2; 0x800 <= n && IsScalar(n)
    ensures ReadThree(b0, PercentByte(0x80 + x1) + (PercentByte(0x80 + x2) + rest)) == Some((((b0 - 0xE0) * 4096 + x1 * 64 + x2) as char, rest))
  {
    var s2 := PercentByte(0x80 + x2) + rest;
    var s1 := PercentByte(0x80 + x1) + s2;
    ReadPercentContinuation(x1, s2);
    ReadPercentContinuation(x2, rest);
    hide PercentByte, ReadContinuation;
    assert s1[6..] == s1[3..][3..];
  }

  lemma ReadFourBack(b0: nat, x1: nat, x2: nat, x3: nat, rest: string)
    requires 0xF0 <= b0 < 0xF8 && x1 < 64 && x2 < 64 && x3 < 64
    requires var n := (b0 - 0xF0) * 262144 + x1 * 4096 + x2 * 64 + x3; 0x10000 <= n && IsScalar(n)
    ensures ReadFour(b0, PercentByte(0x80 + x1) + (PercentByte(0x80 + x2) + (PercentByte(0x80 + x3) + rest)))
            == Some((((b0 - 0xF0) * 262144 + x1 * 4096 + x2 * 64 + x3) as char, rest))
  {
    var s3 := PercentByte(0x80 + x3) + rest;
    var s2 := PercentByte(0x80 + x2) + s3;
    var s1 := PercentByte(0x80 + x1) + s2;
    ReadPercentContinuation(x1, s2);
    ReadPercentContinuation(x2, s3);
    ReadPercentContinuation(x3, rest);
    hide PercentByte, ReadContinuation;
    assert s1[6..] == s1[3..][3..] && s1[9..] == s1[6..][3..];
  }

  // The payloads of each encoded length, with the character they add up to.

  lemma SplitTwo(c: char) returns (b0: Byte, x1: nat)
    requires 0x80 <= c as int < 0x800
    ensures 0xC0 <= b0 < 0xE0 && x1 < 64 && (b0 as nat - 0xC0) * 64 + x1 == c as int
    ensures Utf8(c) == [b0] + [0x80 + x1]
  {
    var n: nat := c as int;
    b0, x1 := 0xC0 + n / 64, n % 64;
  }

  lemma SplitThree(c: char) returns (b0: Byte, x1: nat, x2: nat)
    requires 0x800 <= c as int < 0x10000
    ensures 0xE0 <= b0 < 0xF0 && x1 < 64 && x2 < 64 && (b0 as nat - 0xE0) * 4096 + x1 * 64 + x2 == c as int
    ensures Utf8(c) == [b0] + ([0x80 + x1] + [0x80 + x2])
  {
    var n: nat := c as int;
    b0, x1, x2 := 0xE0 + n / 4096, n / 64 % 64, n % 64;
  }

  lemma SixBitGroups(n: nat)
    ensures n == (n / 262144) * 262144 + (n / 4096 % 64) * 4096 + (n / 64 % 64) * 64 + n % 64
  {
    assert n / 64 / 64 == n / 4096;
    assert n / 4096 / 64 == n / 262144;
  }

  lemma SplitFour(c: char) returns (b0: Byte, x1: nat, x2: nat, x3: nat)
    requires 0x10000 <= c as int
    ensures 0xF0 <= b0 < 0xF8 && x1 < 64 && x2 < 64 && x3 < 64
    ensures (b0 as nat - 0xF0) * 262144 + x1 * 4096 + x2 * 64 + x3 == c as int
    ensures Utf8(c) == [b0] + ([0x80 + x1] + ([0x80 + x2] + [0x80 + x3]))
  {
    var n: nat := c as int;
    SixBitGroups(n);
    b0, x1, x2, x3 := 0xF0 + n / 262144, n / 4096 % 64, n / 64 % 64, n % 64;
  }

  lemma ReadTwoBytes(c: char, rest: string)
    requires 0x80 <= c as int < 0x800
    ensures ReadEscape(PercentBytes(Utf8(c)) + rest) == Some((c, rest))
  {
    hide PercentByte, PercentBytes, ReadByte, ReadTwo, Utf8;
    var b0, x1 := SplitTwo(c);
    MoreBytes(b0, [0x80 + x1], rest);
    OneByte(0x80 + x1, rest);
    ReadPercentByte(b0, PercentByte(0x80 + x1) + rest);
    ReadTwoBack(b0, x1, rest);
  }

  lemma ReadThreeBytes(c: char, rest: string)
    requires 0x800 <= c as int < 0x10000
    ensures ReadEscape(PercentBytes(Utf8(c)) + rest) == Some((c, rest))
  {
    hide PercentByte, PercentBytes, ReadByte, ReadThree, Utf8;
    var b0, x1, x2 := SplitThree(c);
    MoreBytes(b0, [0x80 + x1] + [0x80 + x2], rest);
    MoreBytes(0x80 + x1, [0x80 + x2], rest);
    OneByte(0x80 + x2, rest);
    ReadPercentByte(b0, PercentByte(0x80 + x1) + (PercentByte(0x80 + x2) + rest));
    ReadThreeBack(b0, x1, x2, rest);
  }

  lemma ReadFourBytes(c: char, rest: string)
    requires 0x10000 <= c as int
    ensures ReadEscape(PercentBytes(Utf8(c)) + rest) == Some((c, rest))
  {
    hide PercentByte, PercentBytes, ReadByte, ReadFour, Utf8;
    var b0, x1, x2, x3 := SplitFour(c);
    MoreBytes(b0, [0x80 + x1] + ([0x80 + x2] + [0x80 + x3]), rest);
    MoreBytes(0x80 + x1, [0x80 + x2] + [0x80 + x3], rest);
    MoreBytes(0x80 + x2, [0x80 + x3], rest);
    OneByte(0x80 + x3, rest);
    ReadPercentByte(b0, PercentByte(0x80 + x1) + (PercentByte(0x80 + x2) + (PercentByte(0x80 + x3) + rest)));
    ReadFourBack(b0, x1, x2, x3, rest);
  }

  lemma ReadEscapedChar(c: char, rest: string)
    ensures ReadEscape(PercentBytes(Utf8(c)) + rest) == Some((c, rest))
  {
    if c as int < 0x80 {
      OneByte(c as int, rest);
      ReadPercentByte(c as int, rest);
    } else if c as int < 0x800 {
      ReadTwoBytes(c, rest);
    } else if c as int < 0x10000 {
      ReadThreeBytes(c, rest);
    } else {
      ReadFourBytes(c, rest);
    }
  }

  /** Decoding undoes encoding for every string. */
  lemma {:induction false} DecodeEncode(s: string)
    ensures Decode(Encode(s)) == Some(s)
  {
    if s != "" {
      DecodeEncode(s[1..]);
      var c, tail := s[0], Encode(s[1..]);
      assert Encode(s) == EncodeChar(c) + tail;
      if Unreserved(c) {
        assert (EncodeChar(c) + tail)[1..] == tail;
      } else {
        ReadEscapedChar(c, tail);
        assert PercentBytes(Utf8(c))[0] == '%';
        assert Encode(s)[0] == '%';
      }
      assert [c] + s[1..] == s;
    }
  }

  /** ASCII letters, digits and nine marks. */
  predicate LetterDigitOrMark(c: char) {
    'a' <= c <= 'z' || 'A' <= c <= 'Z' || '0' <= c <= '9' || c in "-_.!~*'()"
  }

  lemma UnreservedIff(c: char)
    ensures Unreserved(c) <==> LetterDigitOrMark(c)
  {
  }

  /**
   Encoded text consists of letters, digits, the nine marks and percent signs, so it can hold no delimiter of
   a URL; text of the first three kinds is left alone.
   */
  lemma EncodeIsSafe(s: string)
    ensures forall c :: c in Encode(s) ==> LetterDigitOrMark(c) || c == '%'
    ensures (forall c :: c in s ==> LetterDigitOrMark(c)) ==> Encode(s) == s
  {
    EncodedCharacters(s);
    forall c ensures Unreserved(c) <==> LetterDigitOrMark(c) { UnreservedIff(c); }
    hide LetterDigitOrMark, Unreserved, Encode;
  }

  lemma {:induction false} EncodedCharacters(s: string)
    ensures forall c :: c in Encode(s) ==> Unreserved(c) || c == '%'
    ensures (forall c :: c in s ==> Unreserved(c)) ==> Encode(s) == s
  {
    if s != "" {
      EncodedCharacters(s[1..]);
      assert s == [s[0]] + s[1..];
      if !Unreserved(s[0]) { BytesAreSafe(Utf8(s[0])); }
    }
  }

  lemma {:induction false} BytesAreSafe(bs: seq<Byte>)
    ensures forall c :: c in PercentBytes(bs) ==> Unreserved(c) || c == '%'
  {
    if bs != [] { BytesAreSafe(bs[1..]); }
  }

  /** Escapes are written with the upper-case digits 0-9 and A-F, high half first. */
  lemma EscapeDigits(b: Byte)
    ensures PercentByte(b) == ['%', "0123456789ABCDEF"[b / 16], "0123456789ABCDEF"[b % 16]]
  {
  }

  /** The first and last characters of each encoded length, in UTF-8. */
  lemma Utf8Lengths()
    ensures Utf8('\U{7F}') == [0x7F]
    ensures Utf8('\U{80}') == [0xC2, 0x80] && Utf8('\U{7FF}') == [0xDF, 0xBF]
    ensures Utf8('\U{800}') == [0xE0, 0xA0, 0x80] && Utf8('\U{FFFF}') == [0xEF, 0xBF, 0xBF]
    ensures Utf8('\U{10000}') == [0xF0, 0x90, 0x80, 0x80] && Utf8('\U{10FFFF}') == [0xF4, 0x8F, 0xBF, 0xBF]
  {
  }
}
