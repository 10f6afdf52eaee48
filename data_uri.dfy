/** The data-URI codec of xsl/utils.py: the recogniser `is_data_uri`, the parser
    `parse_data_uri` and the builder `create_data_uri`, for the restricted form
    `data:[<type>/<subtype>][;charset=<name>][;base64],<data>` of RFC 2397. */
module DataUri {
  import opened Wrappers
  import opened Strings
  import opened Base64
  import opened Text

  // ---------------------------------------------------------------------------------------
  // The grammar of DATA_URI_PATTERN, matched case-insensitively.

  /** `[a-z]` under IGNORECASE */
  predicate IsTypeChar(c: char) {
    'a' <= LowerChar(c) <= 'z'
  }

  /** `[a-z0-9\-+.]` under IGNORECASE */
  predicate IsSubtypeChar(c: char) {
    IsTypeChar(c) || '0' <= c <= '9' || c == '-' || c == '+' || c == '.'
  }

  /** `[a-z0-9\-]` under IGNORECASE */
  predicate IsCharsetChar(c: char) {
    IsTypeChar(c) || '0' <= c <= '9' || c == '-'
  }

  /** A literal of the pattern (all lower-case ASCII) matched under IGNORECASE. */
  predicate EqualsIgnoreCase(s: string, lit: string) {
    |s| == |lit| && forall k :: 0 <= k < |s| ==> LowerChar(s[k]) == lit[k]
  }

  predicate AllChars(s: string, p: char -> bool) {
    forall k :: 0 <= k < |s| ==> p(s[k])
  }

  /** The `mime` group: `[a-z]+/[a-z0-9\-+.]+`. */
  predicate IsMimeGroup(m: string) {
    '/' in m
    && var i := IndexOf(m, '/');
       0 < i < |m| - 1 && AllChars(m[..i], IsTypeChar) && AllChars(m[i + 1..], IsSubtypeChar)
  }

  /** The `charset` group: `;charset=[a-z0-9\-]+`. */
  predicate IsCharsetGroup(c: string) {
    |c| > 9 && EqualsIgnoreCase(c[..9], ";charset=") && AllChars(c[9..], IsCharsetChar)
  }

  /** The `base64` group: `;base64`. */
  predicate IsBase64Group(b: string) {
    EqualsIgnoreCase(b, ";base64")
  }

  /** One decomposition of a string along the pattern: the `data:` prefix as written, the three
      optional groups, the `data` group, and whether a final newline follows it (which `$`
      allows and `.` does not take into the group). */
  datatype Groups = Groups(
    head: string,
    mime: Option<string>,
    charset: Option<string>,
    base64: Option<string>,
    data: string,
    newline: bool)

  predicate Conforms(g: Groups) {
    && EqualsIgnoreCase(g.head, "data:")
    && (g.mime.Some? ==> IsMimeGroup(g.mime.value))
    && (g.charset.Some? ==> IsCharsetGroup(g.charset.value))
    && (g.base64.Some? ==> IsBase64Group(g.base64.value))
    && '\n' !in g.data
  }

  function OrEmpty(o: Option<string>): string {
    if o.Some? then o.value else ""
  }

  /** The `,<data>` end of the pattern, with the optional final newline `$` lets through. */
  function Tail(data: string, newline: bool): string {
    "," + data + (if newline then "\n" else "")
  }

  /** What follows the `data:` prefix in the string a decomposition spells. */
  function Body(g: Groups): string {
    OrEmpty(g.mime) + (OrEmpty(g.charset) + (OrEmpty(g.base64) + Tail(g.data, g.newline)))
  }

  /** The string a decomposition spells. */
  function Render(g: Groups): string {
    g.head + Body(g)
  }

  // ---------------------------------------------------------------------------------------
  // The matcher: one left-to-right pass, each optional group taken greedily when present.

  /** Length of the longest prefix of `t` whose characters all satisfy `p`. */
  function Span(t: string, p: char -> bool): (n: nat)
    ensures n <= |t| && AllChars(t[..n], p)
    ensures n < |t| ==> !p(t[n])
  {
    if |t| > 0 && p(t[0]) then 1 + Span(t[1..], p) else 0
  }

  lemma SpanExact(a: string, b: string, p: char -> bool)
    requires AllChars(a, p) && (b == [] || !p(b[0]))
    ensures Span(a + b, p) == |a|
    decreases |a|
  {
    if |a| > 0 {
      assert (a + b)[0] == a[0];
      assert (a + b)[1..] == a[1..] + b;
      SpanExact(a[1..], b, p);
    } else {
      assert a + b == b;
    }
  }

  /** The optional `mime` group at the start of `t`, and what follows it. */
  function MatchMime(t: string): (Option<string>, string) {
    var n := Span(t, IsTypeChar);
    if 0 < n < |t| && t[n] == '/' then
      var m := Span(t[n + 1..], IsSubtypeChar);
      if m > 0 then (Some(t[..n + 1 + m]), t[n + 1 + m..]) else (None, t)
    else (None, t)
  }

  /** The optional `charset` group at the start of `t`, and what follows it. */
  function MatchCharset(t: string): (Option<string>, string) {
    if |t| >= 9 && EqualsIgnoreCase(t[..9], ";charset=") then
      var n := Span(t[9..], IsCharsetChar);
      if n > 0 then (Some(t[..9 + n]), t[9 + n..]) else (None, t)
    else (None, t)
  }

  /** The optional `base64` group at the start of `t`, and what follows it. */
  function MatchBase64(t: string): (Option<string>, string) {
    if |t| >= 7 && EqualsIgnoreCase(t[..7], ";base64") then (Some(t[..7]), t[7..]) else (None, t)
  }

  /** `,(?P<data>.*)$`: the data group and whether a final newline followed it. */
  function MatchTail(t: string): Option<(string, bool)> {
    if |t| == 0 || t[0] != ',' then None
    else
      var rest := t[1..];
      if '\n' !in rest then Some((rest, false))
      else if '\n' !in rest[..|rest| - 1] then Some((rest[..|rest| - 1], true))
      else None
  }

  function MatchBody(head: string, t: string): Option<Groups> {
    var (mime, t1) := MatchMime(t);
    var (charset, t2) := MatchCharset(t1);
    var (b64, t3) := MatchBase64(t2);
    match MatchTail(t3)
    case None => None
    case Some((data, newline)) => Some(Groups(head, mime, charset, b64, data, newline))
  }

  /** `DATA_URI_PATTERN.match(s)`: the groups, or `None` when the pattern does not match. */
  function Match(s: string): Option<Groups> {
    if |s| < 5 || !EqualsIgnoreCase(s[..5], "data:") then None else MatchBody(s[..5], s[5..])
  }

  /** `is_data_uri(uri)` */
  predicate IsDataUri(s: string) {
    Match(s).Some?
  }

  // Soundness: what the matcher returns is a decomposition of the input along the grammar.

  lemma MatchMimeSound(t: string)
    ensures var (m, r) := MatchMime(t);
      (m.Some? ==> IsMimeGroup(m.value)) && t == OrEmpty(m) + r
  {
    var (m, r) := MatchMime(t);
    if m.Some? {
      var n := Span(t, IsTypeChar);
      var k := Span(t[n + 1..], IsSubtypeChar);
      var v := m.value;
      assert v == t[..n + 1 + k];
      assert v[..n] == t[..n] && v[n] == '/';
      assert '/' !in v[..n] by {
        forall j | 0 <= j < n ensures v[j] != '/' { assert IsTypeChar(t[..n][j]); }
      }
      assert IndexOf(v, '/') == n;
      assert v[n + 1..] == t[n + 1..][..k];
      assert t == v + r;
    }
  }

  lemma MatchCharsetSound(t: string)
    ensures var (c, r) := MatchCharset(t);
      (c.Some? ==> IsCharsetGroup(c.value)) && t == OrEmpty(c) + r
  {
    var (c, r) := MatchCharset(t);
    if c.Some? {
      var n := Span(t[9..], IsCharsetChar);
      assert c.value[..9] == t[..9] && c.value[9..] == t[9..][..n];
      assert t == c.value + r;
    }
  }

  lemma MatchBase64Sound(t: string)
    ensures var (b, r) := MatchBase64(t);
      (b.Some? ==> IsBase64Group(b.value)) && t == OrEmpty(b) + r
  {
    var (b, r) := MatchBase64(t);
    if b.Some? {
      assert t == t[..7] + t[7..];
    }
  }

  lemma MatchTailSound(t: string)
    requires MatchTail(t).Some?
    ensures var (d, nl) := MatchTail(t).value; '\n' !in d && t == Tail(d, nl)
  {
    var rest := t[1..];
    assert t == "," + rest;
    if '\n' in rest {
      assert rest == rest[..|rest| - 1] + "\n";
    }
  }

  lemma MatchBodySound(head: string, t: string)
    requires MatchBody(head, t).Some?
    ensures var g := MatchBody(head, t).value;
      && g.head == head && Body(g) == t
      && (g.mime.Some? ==> IsMimeGroup(g.mime.value))
      && (g.charset.Some? ==> IsCharsetGroup(g.charset.value))
      && (g.base64.Some? ==> IsBase64Group(g.base64.value))
      && '\n' !in g.data
  {
    var (mime, t1) := MatchMime(t);
    var (charset, t2) := MatchCharset(t1);
    var (b64, t3) := MatchBase64(t2);
    MatchMimeSound(t);
    MatchCharsetSound(t1);
    MatchBase64Sound(t2);
    MatchTailSound(t3);
  }

  lemma MatchSound(s: string)
    requires Match(s).Some?
    ensures Conforms(Match(s).value) && Render(Match(s).value) == s
  {
    MatchBodySound(s[..5], s[5..]);
    assert s == s[..5] + s[5..];
  }

  // Completeness: every decomposition along the grammar is the one the matcher finds.

  lemma MatchMimeComplete(m: Option<string>, r: string)
    requires m.Some? ==> IsMimeGroup(m.value)
    requires |r| > 0 && (r[0] == ';' || r[0] == ',')
    ensures MatchMime(OrEmpty(m) + r) == (m, r)
  {
    var t := OrEmpty(m) + r;
    if m.None? {
      assert t == r;
      assert Span(t, IsTypeChar) == 0;
    } else {
      MimeSomeComplete(m.value, r);
    }
  }

  lemma MimeSomeComplete(v: string, r: string)
    requires IsMimeGroup(v)
    requires |r| > 0 && (r[0] == ';' || r[0] == ',')
    ensures MatchMime(v + r) == (Some(v), r)
  {
    var t := v + r;
    var i := IndexOf(v, '/');
    var m := |v| - i - 1;
    MimeTypeSpan(v, r);
    MimeSubtypeSpan(v, r);
    assert t[..i + 1 + m] == v && t[i + 1 + m..] == r;
  }

  lemma MimeTypeSpan(v: string, r: string)
    requires IsMimeGroup(v)
    ensures var i := IndexOf(v, '/'); Span(v + r, IsTypeChar) == i && (v + r)[i] == '/'
  {
    var i := IndexOf(v, '/');
    assert v + r == v[..i] + (v[i..] + r);
    SpanExact(v[..i], v[i..] + r, IsTypeChar);
  }

  lemma MimeSubtypeSpan(v: string, r: string)
    requires IsMimeGroup(v)
    requires |r| > 0 && (r[0] == ';' || r[0] == ',')
    ensures var i := IndexOf(v, '/'); Span((v + r)[i + 1..], IsSubtypeChar) == |v| - i - 1
  {
    var i := IndexOf(v, '/');
    SliceOfJoin(v, r, i + 1);
    SubtypeSpan(v[i + 1..], r);
  }

  lemma SliceOfJoin(v: string, r: string, j: nat)
    requires j <= |v|
    ensures (v + r)[j..] == v[j..] + r
  {
  }

  lemma SubtypeSpan(w: string, r: string)
    requires AllChars(w, IsSubtypeChar)
    requires |r| > 0 && (r[0] == ';' || r[0] == ',')
    ensures Span(w + r, IsSubtypeChar) == |w|
  {
    assert !IsSubtypeChar(r[0]);
    SpanExact(w, r, IsSubtypeChar);
  }

  lemma MatchCharsetComplete(c: Option<string>, r: string)
    requires c.Some? ==> IsCharsetGroup(c.value)
    requires |r| > 0 && (r[0] == ',' || (|r| >= 2 && r[0] == ';' && LowerChar(r[1]) == 'b'))
    ensures MatchCharset(OrEmpty(c) + r) == (c, r)
  {
    var t := OrEmpty(c) + r;
    if c.None? {
      assert t == r;
    } else {
      var v := c.value;
      assert t[..9] == v[..9];
      assert t[9..] == v[9..] + r;
      SpanExact(v[9..], r, IsCharsetChar);
      assert t[..9 + |v[9..]|] == v;
      assert t[9 + |v[9..]|..] == r;
    }
  }

  lemma MatchBase64Complete(b: Option<string>, r: string)
    requires b.Some? ==> IsBase64Group(b.value)
    requires |r| > 0 && r[0] == ','
    ensures MatchBase64(OrEmpty(b) + r) == (b, r)
  {
    var t := OrEmpty(b) + r;
    if b.None? {
      assert t == r;
    } else {
      assert t[..7] == b.value && t[7..] == r;
    }
  }

  lemma MatchTailComplete(d: string, nl: bool)
    requires '\n' !in d
    ensures MatchTail(Tail(d, nl)) == Some((d, nl))
  {
    var t := Tail(d, nl);
    var rest := t[1..];
    assert t[0] == ',';
    assert rest == d + (if nl then "\n" else "");
    if nl {
      assert rest[..|rest| - 1] == d;
      assert rest[|rest| - 1] == '\n';
      assert '\n' in rest;
      assert MatchTail(t) == Some((rest[..|rest| - 1], true));
    } else {
      assert rest == d;
    }
  }

  lemma MatchBodyComplete(g: Groups)
    requires Conforms(g)
    ensures MatchBody(g.head, Body(g)) == Some(g)
  {
    var tail := Tail(g.data, g.newline);
    var r3 := OrEmpty(g.base64) + tail;
    var r2 := OrEmpty(g.charset) + r3;
    MatchTailComplete(g.data, g.newline);
    MatchBase64Complete(g.base64, tail);
    if g.base64.Some? {
      assert r3[0] == g.base64.value[0] && r3[1] == g.base64.value[1];
    }
    MatchCharsetComplete(g.charset, r3);
    if g.charset.Some? {
      assert r2[0] == g.charset.value[0];
    }
    MatchMimeComplete(g.mime, r2);
  }

  lemma MatchComplete(g: Groups)
    requires Conforms(g)
    ensures Match(Render(g)) == Some(g)
  {
    var s := Render(g);
    assert s[..5] == g.head && s[5..] == Body(g);
    MatchBodyComplete(g);
  }

  /** The matcher is the grammar: it accepts a string exactly when the string is spelled by a
      well-formed decomposition, and that decomposition is then the one it returns. */
  lemma MatchIsGrammar(s: string, g: Groups)
    ensures Match(s) == Some(g) <==> Conforms(g) && Render(g) == s
  {
    if Match(s) == Some(g) {
      MatchSound(s);
    }
    if Conforms(g) && Render(g) == s {
      MatchComplete(g);
    }
  }

  /** A string that does not begin with `data:` (in any case) is never a data URI;
      in particular `http://...` and `regular string` are rejected. */
  lemma RejectsWithoutScheme(s: string)
    requires !(|s| >= 5 && EqualsIgnoreCase(s[..5], "data:"))
    ensures !IsDataUri(s)
  {
  }

  // ---------------------------------------------------------------------------------------
  // parse_data_uri

  datatype ParseError = InvalidDataUri | InvalidBase64

  /** The dictionary `parse_data_uri` returns; `mime` duplicates `mimeType`. */
  datatype DataUriInfo = DataUriInfo(
    mimeType: string,
    mime: string,
    encoding: string,
    charset: string,
    isBase64: bool,
    data: seq<Byte>)

  /** `s.lstrip(c)` */
  function LStrip(s: string, c: char): string {
    if |s| > 0 && s[0] == c then LStrip(s[1..], c) else s
  }

  /** What `parse_data_uri` makes of the groups of a match. */
  function ParseGroups(g: Groups): Result<DataUriInfo, ParseError> {
    var mime := if g.mime.Some? && g.mime.value != "" then g.mime.value else "text/plain";
    var charset := LStrip(if g.charset.Some? && g.charset.value != "" then g.charset.value else ";charset=utf-8", ';');
    var isBase64 := g.base64.Some? && g.base64.value != "";
    var encoding := if isBase64 then "base64" else "utf-8";
    if isBase64 then
      match Decode(g.data)
      case None => Err(InvalidBase64)
      case Some(bytes) => Ok(DataUriInfo(mime, mime, encoding, charset, true, bytes))
    else Ok(DataUriInfo(mime, mime, encoding, charset, false, Utf8(g.data)))
  }

  /** `parse_data_uri(uri)`; a `ValueError` becomes `Err`. */
  function Parse(s: string): Result<DataUriInfo, ParseError> {
    match Match(s)
    case None => Err(InvalidDataUri)
    case Some(g) => ParseGroups(g)
  }

  /** `parse_data_uri` raises "Invalid data URI" exactly for the strings `is_data_uri` rejects. */
  lemma ParseRejectsExactly(s: string)
    ensures Parse(s) == Err(InvalidDataUri) <==> !IsDataUri(s)
  {
  }

  lemma LStripCharsetGroup(v: string)
    requires IsCharsetGroup(v)
    ensures LStrip(v, ';') == v[1..]
  {
    assert v[..9][0] == v[0] && v[..9][1] == v[1];
    assert v[0] == ';' && v[1] != ';';
    assert v[1..][0] == v[1];
  }

  /** What a parse of well-formed groups reports: the defaults for omitted groups, the
      `charset=` prefix kept, the marker deciding the payload's coding, and no
      percent-decoding of a textual payload. */
  lemma ParseGroupsFields(g: Groups)
    requires Conforms(g)
    ensures ParseGroups(g).Err? <==> g.base64.Some? && Decode(g.data).None?
    ensures ParseGroups(g).Ok? ==>
      var info := ParseGroups(g).value;
      && info.mimeType == info.mime == (if g.mime.Some? then g.mime.value else "text/plain")
      && info.charset == (if g.charset.Some? then g.charset.value[1..] else "charset=utf-8")
      && (info.isBase64 <==> g.base64.Some?)
      && info.encoding == (if g.base64.Some? then "base64" else "utf-8")
      && info.data == (if g.base64.Some? then Decode(g.data).value else Utf8(g.data))
  {
    if g.charset.Some? {
      LStripCharsetGroup(g.charset.value);
    } else {
      assert LStrip(";charset=utf-8", ';') == "charset=utf-8";
    }
  }

  // ---------------------------------------------------------------------------------------
  // create_data_uri

  datatype CreateError = EncodingMismatch

  /** `create_data_uri(data, mime, charset, base64_encode)`. `decode` is Python's codec for
      `charset` (`data.decode(charset)`), `None` where it raises. */
  function Create(data: seq<Byte>, mime: string, charset: string, base64Encode: bool,
                  decode: seq<Byte> -> Option<string>): Result<string, CreateError>
  {
    if base64Encode then Ok("data:" + mime + ";charset=" + charset + ";base64," + Encode(data))
    else match decode(data)
      case None => Err(EncodingMismatch)
      case Some(text) => Ok("data:" + mime + ";charset=" + charset + "," + Quote(text))
  }

  /** A charset name the pattern's `[a-z0-9\-]+` accepts. */
  predicate IsCharsetName(c: string) {
    |c| > 0 && AllChars(c, IsCharsetChar)
  }

  lemma CharsetGroupOf(c: string)
    requires IsCharsetName(c)
    ensures IsCharsetGroup(";charset=" + c)
    ensures (";charset=" + c)[1..] == "charset=" + c
  {
    var v := ";charset=" + c;
    assert v[..9] == ";charset=" && v[9..] == c;
    LiteralMatchesItself(";charset=");
  }

  /** A literal without upper-case letters matches itself under IGNORECASE. */
  lemma LiteralMatchesItself(lit: string)
    requires forall k :: 0 <= k < |lit| ==> !('A' <= lit[k] <= 'Z')
    ensures EqualsIgnoreCase(lit, lit)
  {
  }

  /** The groups of a built data URI. */
  function CreatedGroups(mime: string, charset: string, base64Encode: bool, payload: string): Groups {
    Groups("data:", Some(mime), Some(";charset=" + charset),
           if base64Encode then Some(";base64") else None, payload, false)
  }

  /** The spelling of built groups, written left to right as `create_data_uri` writes it. */
  lemma CreatedRender(mime: string, charset: string, base64Encode: bool, payload: string)
    ensures Render(CreatedGroups(mime, charset, base64Encode, payload))
      == if base64Encode then "data:" + mime + ";charset=" + charset + ";base64," + payload
         else "data:" + mime + ";charset=" + charset + "," + payload
  {
    var g := CreatedGroups(mime, charset, base64Encode, payload);
    var cs := ";charset=" + charset;
    var tail := "," + payload;
    assert Tail(payload, false) == tail;
    if base64Encode {
      assert Body(g) == mime + (cs + (";base64" + tail));
      assert ";base64" + tail == ";base64," + payload;
    } else {
      assert Body(g) == mime + (cs + tail);
    }
  }

  lemma CreatedSpelling(data: seq<Byte>, mime: string, charset: string, base64Encode: bool,
                        decode: seq<Byte> -> Option<string>)
    requires Create(data, mime, charset, base64Encode, decode).Ok?
    ensures var payload := if base64Encode then Encode(data) else Quote(decode(data).value);
      Create(data, mime, charset, base64Encode, decode).value
        == Render(CreatedGroups(mime, charset, base64Encode, payload))
  {
    var payload := if base64Encode then Encode(data) else Quote(decode(data).value);
    CreatedRender(mime, charset, base64Encode, payload);
  }

  lemma NoNewline(s: string, p: char -> bool)
    requires AllChars(s, p) && !p('\n')
    ensures '\n' !in s
  {
  }

  /** Round trip: a base64 data URI built from any bytes, with a type and charset the pattern
      accepts, parses back to those bytes, that type, and the charset with its prefix. */
  lemma ParseCreateBase64(d: seq<Byte>, m: string, c: string, decode: seq<Byte> -> Option<string>)
    requires IsMimeGroup(m) && IsCharsetName(c)
    ensures Create(d, m, c, true, decode).Ok?
    ensures Parse(Create(d, m, c, true, decode).value)
      == Ok(DataUriInfo(m, m, "base64", "charset=" + c, true, d))
  {
    var e := Encode(d);
    EncodeLength(d);
    EncodeChars(d);
    NoNewline(e, IsEncodedChar);
    CharsetGroupOf(c);
    var g := CreatedGroups(m, c, true, e);
    CreatedSpelling(d, m, c, true, decode);
    MatchComplete(g);
    DecodeEncode(d);
    ParseGroupsFields(g);
  }

  /** Textual data URIs: building fails exactly when the bytes do not decode in the charset;
      otherwise parsing gives back the UTF-8 bytes of the percent-quoted text, since parsing
      does not unquote. */
  lemma ParseCreateText(d: seq<Byte>, m: string, c: string, decode: seq<Byte> -> Option<string>)
    requires IsMimeGroup(m) && IsCharsetName(c)
    ensures Create(d, m, c, false, decode).Err? <==> decode(d).None?
    ensures decode(d).Some? ==>
      Parse(Create(d, m, c, false, decode).value)
        == Ok(DataUriInfo(m, m, "utf-8", "charset=" + c, false, Utf8(Quote(decode(d).value))))
  {
    if decode(d).Some? {
      var q := Quote(decode(d).value);
      QuoteBytesChars(Utf8(decode(d).value));
      NoNewline(q, QuotedChar);
      CharsetGroupOf(c);
      var g := CreatedGroups(m, c, false, q);
      CreatedSpelling(d, m, c, false, decode);
      MatchComplete(g);
      ParseGroupsFields(g);
    }
  }

  predicate QuotedChar(c: char) {
    IsQuoteSafe(c) || c == '%'
  }

  /** For text made only of quote-safe characters, the textual round trip is the identity on
      the text: the parsed bytes are its UTF-8 encoding. */
  lemma ParseCreateSafeText(d: seq<Byte>, m: string, c: string, decode: seq<Byte> -> Option<string>)
    requires IsMimeGroup(m) && IsCharsetName(c)
    requires decode(d).Some? && AllChars(decode(d).value, IsQuoteSafe)
    ensures Parse(Create(d, m, c, false, decode).value).Ok?
    ensures Parse(Create(d, m, c, false, decode).value).value.data == Utf8(decode(d).value)
  {
    ParseCreateText(d, m, c, decode);
    QuoteSafeText(decode(d).value);
  }
}
