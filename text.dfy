/** Text-to-bytes conversions the data-URI codec uses: UTF-8 encoding (`str.encode('utf-8')`)
    and the percent-quoting of `urllib.parse.quote` with its default `safe='/'`. */
module Text {
  import opened Wrappers
  import opened Base64

  /** UTF-8 encoding of one Unicode scalar value (section 3 of RFC 3629). */
  function EncodeChar(c: char): (b: seq<Byte>)
    ensures 1 <= |b| <= 4
    ensures (|b| == 1) <==> (c as int < 0x80)
  {
    var n := c as int;
    if n < 0x80 then [n]
    else if n < 0x800 then [0xC0 + n / 64, 0x80 + n % 64]
    else if n < 0x10000 then [0xE0 + n / 4096, 0x80 + (n / 64) % 64, 0x80 + n % 64]
    else [0xF0 + n / 262144, 0x80 + (n / 4096) % 64, 0x80 + (n / 64) % 64, 0x80 + n % 64]
  }

  /** `s.encode('utf-8')` */
  function Utf8(s: string): (b: seq<Byte>)
    ensures |b| >= |s|
  {
    if |s| == 0 then [] else EncodeChar(s[0]) + Utf8(s[1..])
  }

  lemma {:induction false} Utf8Append(s: string, t: string)
    ensures Utf8(s + t) == Utf8(s) + Utf8(t)
    decreases |s|
  {
    if |s| > 0 {
      Utf8Append(s[1..], t);
      assert (s + t)[1..] == s[1..] + t;
    } else {
      assert s + t == t;
    }
  }

  predicate IsAsciiText(s: string) {
    forall k :: 0 <= k < |s| ==> s[k] as int < 0x80
  }

  /** ASCII text encodes to its own character codes, one byte each. */
  lemma {:induction false} Utf8Ascii(s: string)
    requires IsAsciiText(s)
    ensures |Utf8(s)| == |s|
    ensures forall k :: 0 <= k < |s| ==> Utf8(s)[k] == s[k] as int
    decreases |s|
  {
    if |s| > 0 {
      Utf8Ascii(s[1..]);
    }
  }

  /** A continuation byte `10xxxxxx`. */
  predicate IsTrail(b: Byte) {
    0x80 <= b < 0xC0
  }

  /** Reads one character's encoding at the start of `b`: the character and the byte count,
      or `None` for a malformed, overlong or surrogate sequence. */
  function DecodeCharAt(b: seq<Byte>): (r: Option<(char, nat)>)
    requires |b| > 0
    ensures r.Some? ==> 1 <= r.value.1 <= |b|
  {
    var b0: int := b[0];
    if b0 < 0x80 then Some((b0 as char, 1))
    else if 0xC0 <= b0 < 0xE0 && |b| >= 2 && IsTrail(b[1]) then
      var n := (b0 - 0xC0) * 64 + (b[1] as int - 0x80);
      if n < 0x80 then None else Some((n as char, 2))
    else if 0xE0 <= b0 < 0xF0 && |b| >= 3 && IsTrail(b[1]) && IsTrail(b[2]) then
      var n := (b0 - 0xE0) * 4096 + (b[1] as int - 0x80) * 64 + (b[2] as int - 0x80);
      if n < 0x800 || (0xD800 <= n < 0xE000) then None else Some((n as char, 3))
    else if 0xF0 <= b0 < 0xF5 && |b| >= 4 && IsTrail(b[1]) && IsTrail(b[2]) && IsTrail(b[3]) then
      var n := (b0 - 0xF0) * 262144 + (b[1] as int - 0x80) * 4096 + (b[2] as int - 0x80) * 64 + (b[3] as int - 0x80);
      if n < 0x10000 || n >= 0x110000 then None else Some((n as char, 4))
    else None
  }

  /** `b.decode('utf-8')`: the reference inverse of `Utf8`. */
  function Utf8Decode(b: seq<Byte>): (r: Option<string>)
    decreases |b|
  {
    if |b| == 0 then Some("")
    else match DecodeCharAt(b)
      case None => None
      case Some((c, len)) =>
        match Utf8Decode(b[len..])
        case None => None
        case Some(rest) => Some([c] + rest)
  }

  lemma DecodeTwo(n: int, tail: seq<Byte>)
    requires 0x80 <= n < 0x800
    ensures DecodeCharAt([0xC0 + n / 64, 0x80 + n % 64] + tail) == Some((n as char, 2))
  {
    var b := [0xC0 + n / 64, 0x80 + n % 64] + tail;
    assert b[0] == 0xC0 + n / 64 && b[1] == 0x80 + n % 64;
  }

  lemma DecodeThree(n: int, tail: seq<Byte>)
    requires 0x800 <= n < 0x10000 && !(0xD800 <= n < 0xE000)
    ensures DecodeCharAt([0xE0 + n / 4096, 0x80 + (n / 64) % 64, 0x80 + n % 64] + tail) == Some((n as char, 3))
  {
    var b := [0xE0 + n / 4096, 0x80 + (n / 64) % 64, 0x80 + n % 64] + tail;
    assert b[0] == 0xE0 + n / 4096 && b[1] == 0x80 + (n / 64) % 64 && b[2] == 0x80 + n % 64;
    assert (n / 4096) * 4096 + ((n / 64) % 64) * 64 + n % 64 == n;
  }

  lemma FourDigits(n: int)
    requires 0x10000 <= n < 0x110000
    ensures (n / 262144) * 262144 + ((n / 4096) % 64) * 4096 + ((n / 64) % 64) * 64 + n % 64 == n
    ensures 0xF0 <= 0xF0 + n / 262144 < 0xF5
  {
  }

  lemma DecodeFour(n: int, tail: seq<Byte>)
    requires 0x10000 <= n < 0x110000
    ensures DecodeCharAt([0xF0 + n / 262144, 0x80 + (n / 4096) % 64, 0x80 + (n / 64) % 64, 0x80 + n % 64] + tail)
      == Some((n as char, 4))
  {
    FourDigits(n);
    var b0, b1, b2, b3 := 0xF0 + n / 262144, 0x80 + (n / 4096) % 64, 0x80 + (n / 64) % 64, 0x80 + n % 64;
    var b := [b0, b1, b2, b3] + tail;
    assert b[0] == b0 && b[1] == b1 && b[2] == b2 && b[3] == b3;
    assert IsTrail(b1) && IsTrail(b2) && IsTrail(b3);
    var m := (b0 - 0xF0) * 262144 + (b1 - 0x80) * 4096 + (b2 - 0x80) * 64 + (b3 - 0x80);
    assert m == n;
  }

  lemma DecodeEncodeChar(c: char, tail: seq<Byte>)
    ensures DecodeCharAt(EncodeChar(c) + tail) == Some((c, |EncodeChar(c)|))
  {
    var n := c as int;
    if n < 0x80 {
    } else if n < 0x800 {
      DecodeTwo(n, tail);
    } else if n < 0x10000 {
      DecodeThree(n, tail);
    } else {
      DecodeFour(n, tail);
    }
  }

  /** UTF-8 decoding inverts UTF-8 encoding on every string. */
  lemma {:induction false} Utf8RoundTrip(s: string)
    ensures Utf8Decode(Utf8(s)) == Some(s)
    decreases |s|
  {
    if |s| > 0 {
      var e := EncodeChar(s[0]);
      var rest := Utf8(s[1..]);
      DecodeEncodeChar(s[0], rest);
      assert (e + rest)[|e|..] == rest;
      Utf8RoundTrip(s[1..]);
      assert [s[0]] + s[1..] == s;
    }
  }

  // Percent-quoting, `urllib.parse.quote(text)`: UTF-8 bytes, each kept as its character when it
  // is one of `A-Z a-z 0-9 _ . - ~` or the default safe `/`, otherwise written `%XX`.

  predicate IsQuoteSafe(c: char) {
    'A' <= c <= 'Z' || 'a' <= c <= 'z' || '0' <= c <= '9'
    || c == '_' || c == '.' || c == '-' || c == '~' || c == '/'
  }

  function HexDigit(x: nat): (c: char)
    requires x < 16
  {
    if x < 10 then ('0' as int + x) as char else ('A' as int + (x - 10)) as char
  }

  predicate IsHexDigit(c: char) {
    '0' <= c <= '9' || 'A' <= c <= 'F' || 'a' <= c <= 'f'
  }

  function HexValue(c: char): (x: nat)
    requires IsHexDigit(c)
    ensures x < 16
  {
    if '0' <= c <= '9' then c as int - '0' as int
    else if 'A' <= c <= 'F' then c as int - 'A' as int + 10
    else c as int - 'a' as int + 10
  }

  function QuoteByte(b: Byte): (s: string)
    ensures |s| == 1 || |s| == 3
  {
    if b < 0x80 && IsQuoteSafe(b as char) then [b as char]
    else ['%', HexDigit(b / 16), HexDigit(b % 16)]
  }

  function QuoteBytes(b: seq<Byte>): string {
    if |b| == 0 then "" else QuoteByte(b[0]) + QuoteBytes(b[1..])
  }

  /** `urllib.parse.quote(text)` */
  function Quote(text: string): string {
    QuoteBytes(Utf8(text))
  }

  /** What quoting emits: safe characters, `%` and upper-case hex digits — never a newline. */
  lemma {:induction false} QuoteBytesChars(b: seq<Byte>)
    ensures forall k :: 0 <= k < |QuoteBytes(b)| ==>
      IsQuoteSafe(QuoteBytes(b)[k]) || QuoteBytes(b)[k] == '%'
    decreases |b|
  {
    if |b| > 0 {
      QuoteBytesChars(b[1..]);
      var q := QuoteByte(b[0]);
      assert forall k :: 0 <= k < |q| ==> IsQuoteSafe(q[k]) || q[k] == '%';
    }
  }

  /** Text made only of safe characters is left as it is by `quote`. */
  lemma {:induction false} QuoteSafeText(text: string)
    requires forall k :: 0 <= k < |text| ==> IsQuoteSafe(text[k])
    ensures Quote(text) == text
    decreases |text|
  {
    if |text| > 0 {
      QuoteSafeText(text[1..]);
      assert QuoteByte(text[0] as int) == [text[0]];
      assert text == [text[0]] + text[1..];
    }
  }

  /** `urllib.parse.unquote_to_bytes` on quoting's output alphabet: the reference inverse. */
  function UnquoteBytes(s: string): Option<seq<Byte>>
    decreases |s|
  {
    if |s| == 0 then Some([])
    else if s[0] == '%' then
      if |s| >= 3 && IsHexDigit(s[1]) && IsHexDigit(s[2]) then
        match UnquoteBytes(s[3..])
        case None => None
        case Some(rest) => Some([HexValue(s[1]) * 16 + HexValue(s[2])] + rest)
      else None
    else if s[0] as int < 0x80 then
      match UnquoteBytes(s[1..])
      case None => None
      case Some(rest) => Some([s[0] as int] + rest)
    else None
  }

  /** Quoting loses nothing: unquoting its output gives back the bytes. */
  lemma {:induction false} UnquoteQuote(b: seq<Byte>)
    ensures UnquoteBytes(QuoteBytes(b)) == Some(b)
    decreases |b|
  {
    if |b| > 0 {
      UnquoteQuote(b[1..]);
      UnquoteByte(b[0], QuoteBytes(b[1..]), b[1..]);
      assert b == [b[0]] + b[1..];
    }
  }

  /** Unquoting a quoted byte ahead of quoted text gives the byte first. */
  lemma UnquoteByte(b: Byte, rest: string, r: seq<Byte>)
    requires UnquoteBytes(rest) == Some(r)
    ensures UnquoteBytes(QuoteByte(b) + rest) == Some([b] + r)
  {
    var q := QuoteByte(b);
    if |q| == 1 {
      assert (q + rest)[1..] == rest;
    } else {
      assert (q + rest)[3..] == rest;
      HexRoundTrip(b);
    }
  }

  /** The two hex digits of a byte give it back. */
  lemma HexRoundTrip(b: Byte)
    ensures HexValue(HexDigit(b / 16)) * 16 + HexValue(HexDigit(b % 16)) == b
  {
  }
}
