/** The older editor of filex/cli.py: a `FileEditor` that classifies a file by its suffix and
    its content, queries it with a fixed namespace map, and edits only the first match. */
module FilexEditor {
  import opened Wrappers
  import opened Strings
  import opened Tree
  import Namespaces
  import Base64
  import DataUri
  import XslEditor

  datatype FileType = Svg | Html | Xml

  /** Which library built the tree: lxml (an `etree._Element`) or the ElementTree fallback. */
  datatype Parser = Lxml | Etree

  // ---------------------------------------------------------------------------------------
  // Where the file comes from and what it is

  /** `file_path.startswith('http')`: the file is fetched rather than read from disk. */
  predicate IsRemote(path: string) {
    StartsWith(path, "http")
  }

  /** The two editors draw the line differently: an `ftp://` URL is remote only for
      xsl/editor.py, a local name that merely starts with `http` only here; every `http://`
      or `https://` URL is remote for both. */
  lemma RemoteRulesDiffer(p: string)
    ensures XslEditor.IsRemote("ftp://host/a.svg") && !IsRemote("ftp://host/a.svg")
    ensures IsRemote("httpdocs/a.svg") && !XslEditor.IsRemote("httpdocs/a.svg")
    ensures XslEditor.IsRemote(p) && !StartsWith(p, "ftp://") ==> IsRemote(p)
  {
    assert "ftp://host/a.svg"[..6] == "ftp://" && "ftp://host/a.svg"[..4] == "ftp:";
    assert "httpdocs/a.svg"[..4] == "http" && "httpdocs/a.svg"[..6] == "httpdo";
    assert "httpdocs/a.svg"[..7] == "httpdoc" && "httpdocs/a.svg"[..8] == "httpdocs";
    if StartsWith(p, "http://") || StartsWith(p, "https://") {
      assert p[..4] == p[..7][..4];
    }
  }

  predicate IsAsciiLetter(c: char) {
    ('a' <= c <= 'z') || ('A' <= c <= 'Z')
  }

  /** The characters `urllib.parse` allows in a scheme. */
  predicate IsSchemeChar(c: char) {
    IsAsciiLetter(c) || IsDigit(c) || c == '+' || c == '-' || c == '.'
  }

  /** `urlsplit`'s scheme step: the lower-cased scheme and the rest, or no scheme when the
      text before the first `:` is not one. */
  function SplitScheme(url: string): (string, string) {
    if ':' !in url then ("", url)
    else
      var i := IndexOf(url, ':');
      if 0 < i && IsAsciiLetter(url[0]) && forall k :: 0 <= k < i ==> IsSchemeChar(url[k])
      then (LowerAscii(url[..i]), url[i + 1..])
      else ("", url)
  }

  /** Where the network location after `//` ends: at the first `/`, `?` or `#`. */
  function NetlocEnd(s: string): (n: nat)
    ensures n <= |s|
    decreases |s|
  {
    if |s| == 0 || s[0] in "/?#" then 0 else 1 + NetlocEnd(s[1..])
  }

  /** The schemes whose paths `urlparse` splits `;params` off. */
  const UsesParams: seq<string> := ["", "ftp", "hdl", "prospero", "http", "imap", "https", "shttp",
                                    "rtsp", "rtspu", "sip", "sips", "mms", "sftp", "tel"]

  /** `_splitparams(path)[0]`: the path up to the first `;` of its last segment. */
  function WithoutParams(path: string): string {
    if '/' in path then
      var last := LastIndexOf(path, '/');
      if ';' in path[last..] then path[..last + IndexOf(path[last..], ';')] else path
    else Before(path, ';')
  }

  /** `urlparse(url).path` */
  function UrlPath(url: string): string {
    var (scheme, rest) := SplitScheme(url);
    var afterNetloc := if StartsWith(rest, "//") then rest[2..][NetlocEnd(rest[2..])..] else rest;
    var path := Before(Before(afterNetloc, '#'), '?');
    if scheme in UsesParams && ';' in path then WithoutParams(path) else path
  }

  /** For a plain `http://host/path` URL, the path is what follows the host, without the
      query or fragment. */
  lemma UrlPathOfHttp(host: string, path: string, tail: string)
    requires forall k :: 0 <= k < |host| ==> host[k] !in "/?#"
    requires forall k :: 0 <= k < |path| ==> path[k] !in "?#;"
    requires |path| > 0 && path[0] == '/'
    requires tail == "" || tail[0] in "?#"
    ensures UrlPath("http://" + host + path + tail) == path
  {
    var rest := "//" + host + path + tail;
    UrlPieces(host, path, tail);
    HttpScheme(rest);
    NetlocEndOf(host, path + tail);
    PathBeforeQuery(path, tail);
    assert ';' !in path;
  }

  lemma UrlPieces(host: string, path: string, tail: string)
    ensures "http://" + host + path + tail == "http" + [':'] + ("//" + host + path + tail)
    ensures StartsWith("//" + host + path + tail, "//")
    ensures ("//" + host + path + tail)[2..] == host + (path + tail)
  {
    assert "http://" == "http" + [':'] + "//";
    var rest := "//" + host + path + tail;
    assert rest == "//" + (host + (path + tail));
  }

  lemma HttpScheme(rest: string)
    ensures SplitScheme("http" + [':'] + rest) == ("http", rest)
  {
    var url := "http" + [':'] + rest;
    SplitOnceAt("http", ':', rest);
    assert IndexOf(url, ':') == 4;
    assert url[..4] == "http" && LowerAscii("http") == "http";
  }

  lemma PathBeforeQuery(path: string, tail: string)
    requires forall k :: 0 <= k < |path| ==> path[k] !in "?#;"
    requires tail == "" || tail[0] in "?#"
    ensures Before(Before(path + tail, '#'), '?') == path
  {
    var p := path + tail;
    if tail == "" {
      assert p == path;
    } else if tail[0] == '#' {
      assert p == path + ['#'] + tail[1..];
      SplitOnceAt(path, '#', tail[1..]);
    } else {
      assert p[..|path| + 1] == path + ['?'];
      BeforeKeeps(p, '#', |path| + 1);
      var r := Before(p, '#');
      assert r == path + ['?'] + r[|path| + 1..];
      SplitOnceAt(path, '?', r[|path| + 1..]);
    }
  }

  lemma {:induction false} NetlocEndOf(host: string, rest: string)
    requires forall k :: 0 <= k < |host| ==> host[k] !in "/?#"
    requires |rest| > 0 && rest[0] in "/?#"
    ensures NetlocEnd(host + rest) == |host|
    decreases |host|
  {
    if |host| > 0 {
      assert (host + rest)[1..] == host[1..] + rest;
      NetlocEndOf(host[1..], rest);
    } else {
      assert host + rest == rest;
    }
  }

  /** `PurePath(p).name`: the last component, trailing separators ignored. */
  function Name(p: string): (r: string)
    ensures '/' !in r
  {
    var q := RStrip(p, '/');
    if '/' in q then q[LastIndexOf(q, '/') + 1..] else q
  }

  /** `PurePath(p).suffix`: the name from its last `.`, unless that dot starts or ends it. */
  function Suffix(p: string): (r: string)
    ensures r == "" || (r[0] == '.' && |r| > 1 && '.' !in r[1..] && '/' !in r)
  {
    var n := Name(p);
    if '.' in n && 0 < LastIndexOf(n, '.') < |n| - 1 then n[LastIndexOf(n, '.')..] else ""
  }

  /** The lower-cased suffix `_load_file` classifies by: of the URL's path for a remote file,
      of the file name otherwise. */
  function Extension(path: string): string {
    LowerAscii(Suffix(if IsRemote(path) then UrlPath(path) else path))
  }

  /** `_load_file`'s classification: `svg` by suffix or an `<svg` anywhere in the content;
      otherwise `html` by suffix, `<!doctype html` or `<html`; everything else is `xml`. */
  function Classify(extension: string, content: string): FileType {
    var lower := LowerAscii(content);
    if extension == ".svg" || Contains(lower, "<svg") then Svg
    else if extension == ".html" || extension == ".htm"
            || Contains(lower, "<!doctype html") || Contains(lower, "<html") then Html
    else Xml
  }

  /** Sniffing ignores case, and an `<svg` anywhere overrides every suffix, `.html` included;
      a file classified `xml` has neither an svg nor an html suffix. */
  lemma ClassifySpec(extension: string, content: string)
    ensures Classify(extension, content) == Classify(extension, LowerAscii(content))
    ensures Contains(LowerAscii(content), "<svg") ==> Classify(extension, content) == Svg
    ensures Classify(extension, content) == Xml ==> extension !in [".svg", ".html", ".htm"]
  {
    LowerAsciiIdempotent(content);
  }

  // ---------------------------------------------------------------------------------------
  // Loading

  datatype LoadError = FetchFailed(reason: string) | CannotParse(detail: string)

  /** The parsing step of `_load_file`: lxml's HTML parser for an html file and its XML
      parser otherwise, when lxml is installed and parses the content; ElementTree when not. */
  function ParseTree(fileType: FileType, lxmlAvailable: bool, htmlParse: Option<seq<Node>>,
                     xmlParse: Option<seq<Node>>, etreeParse: Result<seq<Node>, string>)
    : (r: Result<(Parser, seq<Node>), LoadError>)
    ensures r.Ok? && r.value.0 == Lxml ==>
      lxmlAvailable && (if fileType == Html then htmlParse else xmlParse) == Some(r.value.1)
    ensures r.Ok? && r.value.0 == Etree ==> etreeParse == Ok(r.value.1)
    ensures r.Err? <==> (!lxmlAvailable || (if fileType == Html then htmlParse else xmlParse).None?) && etreeParse.Err?
  {
    var lxmlTree := if fileType == Html then htmlParse else xmlParse;
    if lxmlAvailable && lxmlTree.Some? then Ok((Lxml, lxmlTree.value))
    else match etreeParse
      case Ok(t) => Ok((Etree, t))
      case Err(m) => Err(CannotParse(m))
  }

  /** `FileEditor(file_path)`: the content is fetched or read (`fetched`), classified, and
      parsed; a failure at either step is raised. The parsers' results are given. */
  method Open(filePath: string, fetched: Result<string, string>, lxmlAvailable: bool, xpath: Evaluator,
              htmlParse: Option<seq<Node>>, xmlParse: Option<seq<Node>>, etreeParse: Result<seq<Node>, string>)
    returns (r: Result<FileEditor, LoadError>)
    requires Sound(xpath)
    requires htmlParse.Some? ==> WellFormed(htmlParse.value)
    requires xmlParse.Some? ==> WellFormed(xmlParse.value)
    requires etreeParse.Ok? ==> WellFormed(etreeParse.value)
    ensures fetched.Err? ==> r == Err(FetchFailed(fetched.error))
    ensures fetched.Ok? ==>
      var fileType := Classify(Extension(filePath), fetched.value);
      var parsed := ParseTree(fileType, lxmlAvailable, htmlParse, xmlParse, etreeParse);
      && (parsed.Err? ==> r == Err(parsed.error))
      && (parsed.Ok? ==>
            r.Ok? && fresh(r.value) && r.value.Valid()
            && r.value.filePath == filePath && r.value.isRemote == IsRemote(filePath)
            && r.value.content == fetched.value && r.value.fileType == fileType
            && r.value.lxmlAvailable == lxmlAvailable && r.value.xpath == xpath
            && r.value.parser == parsed.value.0 && r.value.nodes == parsed.value.1)
  {
    if fetched.Err? {
      return Err(FetchFailed(fetched.error));
    }
    var content := fetched.value;
    var fileType := Classify(Extension(filePath), content);
    var parsed := ParseTree(fileType, lxmlAvailable, htmlParse, xmlParse, etreeParse);
    if parsed.Err? {
      return Err(parsed.error);
    }
    var editor := new FileEditor(filePath, content, fileType, lxmlAvailable, xpath, parsed.value.0, parsed.value.1);
    return Ok(editor);
  }

  // ---------------------------------------------------------------------------------------
  // Queries

  /** The map `find_by_xpath` always passes: no `xhtml`, no prefix the document declares. */
  function FixedNs(): Registry {
    [("svg", Namespaces.SvgUri), ("xlink", Namespaces.XlinkUri), ("html", Namespaces.XhtmlUri)]
  }

  /** The fixed map is xsl/editor.py's seed without its `xhtml` entry. */
  lemma FixedNsSpec()
    ensures FixedNs() == Namespaces.Seed()[..3]
    ensures Namespaces.Lookup(FixedNs(), "xhtml") == None
    ensures Namespaces.Lookup(Namespaces.Seed(), "xhtml") == Some(Namespaces.XhtmlUri)
    ensures forall p :: p in ["svg", "xlink", "html"] ==>
      Namespaces.Lookup(FixedNs(), p) == Namespaces.Lookup(Namespaces.Seed(), p)
  {
    Namespaces.SeedSpec();
    var f := FixedNs();
    assert Namespaces.Prefixes(f) == ["svg", "xlink", "html"];
    assert f[1..] == [("xlink", Namespaces.XlinkUri), ("html", Namespaces.XhtmlUri)];
    assert f[1..][1..] == [("html", Namespaces.XhtmlUri)];
  }

  datatype Failure =
    | XPathUnavailable          // NotImplementedError: lxml is not installed
    | InvalidXPath(detail: string)
    | NotAnElement              // an element operation applied to a string match

  /** What `extract_data_uri` returns. */
  datatype Extraction =
    | Decoded(mimeType: string, size: nat, base64Data: string, decodedSize: nat)
    | NoElements
    | NoDataUri
    | DecodeFailed

  /** One entry of `list_elements`. */
  datatype Entry = Entry(path: string, tag: string, text: string, attributes: map<string, string>)

  /** The attributes `extract_data_uri` looks at, in order. */
  const UriAttributes: seq<string> := ["href", "xlink:href", "src", "data"]

  /** The header/payload split and decoding of `extract_data_uri`: the header ends at the
      first `,`, the media type lies between the header's first `:` and the next `;` (or
      `:`), and the payload is base64-decoded leniently whether or not `;base64` is there. */
  function DecodeDataUri(uri: string): (r: Extraction)
    ensures r.Decoded? || r == DecodeFailed
    ensures r.Decoded? ==>
      && ',' in uri && ':' in SplitOnce(uri, ',').0
      && r.base64Data == SplitOnce(uri, ',').1
      && |Split(SplitOnce(uri, ',').0, ':')| > 1
      && r.mimeType == Before(Split(SplitOnce(uri, ',').0, ':')[1], ';')
      && Base64.LenientDecode(r.base64Data).Some?
      && r.size == r.decodedSize == |Base64.LenientDecode(r.base64Data).value|
    ensures r == DecodeFailed <==>
      ',' !in uri || ':' !in SplitOnce(uri, ',').0 || Base64.LenientDecode(SplitOnce(uri, ',').1).None?
  {
    if ',' !in uri then DecodeFailed
    else
      var (header, payload) := SplitOnce(uri, ',');
      if ':' !in header then DecodeFailed
      else
        var afterScheme := SplitOnce(header, ':').1;
        var mime := Before(Before(afterScheme, ':'), ';');
        BeforeIsFirstPiece(header, ':');
        match Base64.LenientDecode(payload)
        case None => DecodeFailed
        case Some(d) => Decoded(mime, |d|, payload, |d|)
  }

  /** The separators `extract_data_uri` cuts at never occur in a media type the data-URI
      grammar accepts. */
  lemma MimeSeparators(m: string)
    requires DataUri.IsMimeGroup(m)
    ensures ',' !in m && ':' !in m && ';' !in m
  {
    var i := IndexOf(m, '/');
    forall k | 0 <= k < |m| ensures m[k] !in ",:;" {
      if k < i {
        assert DataUri.IsTypeChar(m[..i][k]);
      } else if k > i {
        assert DataUri.IsSubtypeChar(m[i + 1..][k - i - 1]);
      }
    }
  }

  lemma CharsetSeparators(c: string)
    requires DataUri.IsCharsetName(c)
    ensures ',' !in c && ':' !in c && ';' !in c
  {
    forall k | 0 <= k < |c| ensures c[k] !in ",:;" {
      assert DataUri.IsCharsetChar(c[k]);
    }
  }

  /** The header `create_data_uri` writes: no `,`, and the media type is what lies between
      its first `:` and the next `;`. */
  lemma CreatedHeader(m: string, c: string)
    requires ',' !in m && ':' !in m && ';' !in m && ',' !in c && ':' !in c
    ensures var header := "data:" + m + ";charset=" + c + ";base64";
      && ',' !in header && ':' in header
      && Before(Before(SplitOnce(header, ':').1, ':'), ';') == m
  {
    var params := "charset=" + c + ";base64";
    var x := m + [';'] + params;
    HeaderSeparators(m, c);
    HeaderPieces(m, c);
    SplitOnceAt("data", ':', x);
    assert Before(x, ':') == x;
    SplitOnceAt(m, ';', params);
  }

  lemma HeaderSeparators(m: string, c: string)
    requires ',' !in m && ':' !in m && ',' !in c && ':' !in c
    ensures ':' !in m + [';'] + ("charset=" + c + ";base64")
    ensures ',' !in "data:" + m + ";charset=" + c + ";base64"
  {
  }

  lemma HeaderPieces(m: string, c: string)
    ensures "data:" + m + ";charset=" + c + ";base64" == "data" + [':'] + (m + [';'] + ("charset=" + c + ";base64"))
  {
    assert "data:" == "data" + [':'] && ";charset=" == [';'] + "charset=";
  }

  /** A base64 data URI built by xsl/utils.py's `create_data_uri` from any bytes, with a type
      and charset its grammar accepts, is decoded here to that type, that many bytes, and the
      base64 text of the bytes. */
  lemma DecodeCreated(d: seq<Base64.Byte>, m: string, c: string, decode: seq<Base64.Byte> -> Option<string>)
    requires DataUri.IsMimeGroup(m) && DataUri.IsCharsetName(c)
    ensures DataUri.Create(d, m, c, true, decode).Ok?
    ensures DecodeDataUri(DataUri.Create(d, m, c, true, decode).value)
      == Decoded(m, |d|, Base64.Encode(d), |d|)
  {
    var e := Base64.Encode(d);
    var header := "data:" + m + ";charset=" + c + ";base64";
    MimeSeparators(m);
    CharsetSeparators(c);
    CreatedHeader(m, c);
    CreatedUri(d, m, c, decode);
    Base64.DecodeEncode(d);
    Base64.LenientAgreesWithStrict(e);
    DecodeParts(header, e, m, d);
  }

  lemma CreatedUri(d: seq<Base64.Byte>, m: string, c: string, decode: seq<Base64.Byte> -> Option<string>)
    ensures DataUri.Create(d, m, c, true, decode)
      == Ok(("data:" + m + ";charset=" + c + ";base64") + [','] + Base64.Encode(d))
  {
    var x := "data:" + m + ";charset=" + c;
    var e := Base64.Encode(d);
    assert DataUri.Create(d, m, c, true, decode) == Ok(x + ";base64," + e);
    assert ";base64," == ";base64" + [','];
    assert x + ";base64," + e == x + ";base64" + [','] + e;
  }

  lemma DecodeParts(header: string, e: string, m: string, d: seq<Base64.Byte>)
    requires ',' !in header && ':' in header
    requires Before(Before(SplitOnce(header, ':').1, ':'), ';') == m
    requires Base64.LenientDecode(e) == Some(d)
    ensures DecodeDataUri(header + [','] + e) == Decoded(m, |d|, e, |d|)
  {
    SplitOnceAt(header, ',', e);
  }

  /** What `list_elements` reports for the element at position `i` of the matches: since the
      tree is an element and not an element tree, it has no `getpath`, and the path is the
      position. */
  function EntryOf(i: nat, n: Node): Entry {
    Entry("element[" + Decimal(i) + "]", n.tag, Strip(if n.text.Some? then n.text.value else ""), n.attrs)
  }

  /** Distinct positions get distinct paths. */
  lemma EntryPathsDistinct(i: nat, j: nat, a: Node, b: Node)
    requires i != j
    ensures EntryOf(i, a).path != EntryOf(j, b).path
  {
    var p, q := EntryOf(i, a).path, EntryOf(j, b).path;
    if p == q {
      assert p[8..|p| - 1] == Decimal(i);
      assert q[8..|q| - 1] == Decimal(j);
      DecimalRoundTrip(i);
      DecimalRoundTrip(j);
    }
  }

  // ---------------------------------------------------------------------------------------
  // First-match reads and edits, on a tree and the matches of a query

  /** `get_element_text` on the matches: the first element's text, `""` for none; a string
      match is returned as it is; no match gives `""`. */
  function FirstText(nodes: seq<Node>, hits: seq<Hit>): string
    requires HitsIn(hits, |nodes|)
  {
    if |hits| == 0 then ""
    else match hits[0]
      case Str(v) => v
      case Elem(id) => if nodes[id].text.Some? then nodes[id].text.value else ""
  }

  /** `get_element_attribute` on the matches: the first element's attribute stored under the
      name as given, `""` when it has none or the match is a string. */
  function FirstAttribute(nodes: seq<Node>, hits: seq<Hit>, name: string): string
    requires HitsIn(hits, |nodes|)
  {
    if |hits| == 0 || hits[0].Str? || name !in nodes[hits[0].id].attrs then ""
    else nodes[hits[0].id].attrs[name]
  }

  /** `set_element_text` on the matches: the first match's text, if it is an element. */
  function SetFirstText(nodes: seq<Node>, hits: seq<Hit>, t: string): (r: seq<Node>)
    requires HitsIn(hits, |nodes|)
    ensures |r| == |nodes|
  {
    if |hits| > 0 && hits[0].Elem? then SetText(nodes, hits[0].id, t) else nodes
  }

  /** `set_element_attribute` on the matches: the first match's attribute, if it is an element. */
  function SetFirstAttribute(nodes: seq<Node>, hits: seq<Hit>, name: string, v: string): (r: seq<Node>)
    requires HitsIn(hits, |nodes|)
    ensures |r| == |nodes|
  {
    if |hits| > 0 && hits[0].Elem? then SetAttr(nodes, hits[0].id, name, v) else nodes
  }

  /** A first-match edit is read back by the first-match getter, touches no node but the
      first match, and keeps the tree well formed. */
  lemma FirstEditSpec(nodes: seq<Node>, hits: seq<Hit>, t: string, name: string, v: string)
    requires WellFormed(nodes) && HitsIn(hits, |nodes|)
    ensures WellFormed(SetFirstText(nodes, hits, t)) && WellFormed(SetFirstAttribute(nodes, hits, name, v))
    ensures |hits| > 0 && hits[0].Elem? ==>
      FirstText(SetFirstText(nodes, hits, t), hits) == t
      && FirstAttribute(SetFirstAttribute(nodes, hits, name, v), hits, name) == v
    ensures forall i :: 0 <= i < |nodes| && !(|hits| > 0 && hits[0] == Elem(i)) ==>
      SetFirstText(nodes, hits, t)[i] == nodes[i] && SetFirstAttribute(nodes, hits, name, v)[i] == nodes[i]
  {
    if |hits| > 0 && hits[0].Elem? {
      ContentEditKeepsShape(nodes, hits[0].id, t, name, v);
    }
  }

  /** Unlike xsl/editor.py, which writes the text of every match, this editor writes only the
      first: with two matched elements, the second keeps its text here and gets it there. */
  lemma FirstMatchVersusBroadcast(nodes: seq<Node>, a: nat, b: nat, t: string)
    requires a < |nodes| && b < |nodes| && a != b && nodes[b].text != Some(t)
    ensures SetFirstText(nodes, [Elem(a), Elem(b)], t)[b] == nodes[b]
    ensures XslEditor.TextSet(nodes, [Elem(a), Elem(b)], t)[b] == nodes[b].(text := Some(t)) != nodes[b]
  {
    XslEditor.TextSetSpec(nodes, [Elem(a), Elem(b)], t, b);
  }

  /** The first value among `names` that `element.get` finds and that starts with `data:`. */
  function FirstDataUriOf(attrs: map<string, string>, names: seq<string>): Option<string>
    decreases |names|
  {
    if |names| == 0 then None
    else if names[0] in attrs && StartsWith(attrs[names[0]], "data:") then Some(attrs[names[0]])
    else FirstDataUriOf(attrs, names[1..])
  }

  /** The attribute loop of `extract_data_uri`: try each name in turn and stop at the first
      value starting with `data:`. */
  method ScanUriAttributes(attrs: map<string, string>, names: seq<string>) returns (dataUri: Option<string>)
    ensures dataUri == FirstDataUriOf(attrs, names)
  {
    dataUri := None;
    var k := 0;
    while k < |names|
      invariant 0 <= k <= |names|
      invariant FirstDataUriOf(attrs, names) == FirstDataUriOf(attrs, names[k..])
    {
      assert names[k..][1..] == names[k + 1..];
      if names[k] in attrs && StartsWith(attrs[names[k]], "data:") {
        return Some(attrs[names[k]]);
      }
      k := k + 1;
    }
  }

  /** The value found is the earliest listed attribute holding a data URI; none is found iff
      no listed attribute holds one. */
  lemma {:induction false} FirstDataUriOfSpec(attrs: map<string, string>, names: seq<string>)
    ensures FirstDataUriOf(attrs, names).Some? ==>
      exists j :: 0 <= j < |names| && names[j] in attrs && attrs[names[j]] == FirstDataUriOf(attrs, names).value
        && StartsWith(attrs[names[j]], "data:")
        && forall i :: 0 <= i < j ==> !(names[i] in attrs && StartsWith(attrs[names[i]], "data:"))
    ensures FirstDataUriOf(attrs, names).None? <==>
      forall j :: 0 <= j < |names| ==> !(names[j] in attrs && StartsWith(attrs[names[j]], "data:"))
    decreases |names|
  {
    if |names| > 0 {
      FirstDataUriOfSpec(attrs, names[1..]);
      if FirstDataUriOf(attrs, names).Some? && !(names[0] in attrs && StartsWith(attrs[names[0]], "data:")) {
        var j :| 0 <= j < |names[1..]| && names[1..][j] in attrs
          && attrs[names[1..][j]] == FirstDataUriOf(attrs, names[1..]).value
          && StartsWith(attrs[names[1..][j]], "data:")
          && forall i :: 0 <= i < j ==> !(names[1..][i] in attrs && StartsWith(attrs[names[1..][i]], "data:"));
        assert names[j + 1] == names[1..][j];
        forall i | 0 <= i < j + 1 ensures !(names[i] in attrs && StartsWith(attrs[names[i]], "data:")) {
          if i > 0 {
            assert names[i] == names[1..][i - 1];
          }
        }
      }
      if FirstDataUriOf(attrs, names).None? {
        forall j | 0 <= j < |names| ensures !(names[j] in attrs && StartsWith(attrs[names[j]], "data:")) {
          if j > 0 {
            assert names[j] == names[1..][j - 1];
          }
        }
      }
    }
  }

  /** The entries `list_elements` builds for the matches, or the failure at the first
      string match. */
  function Listing(nodes: seq<Node>, hits: seq<Hit>): Result<seq<Entry>, Failure>
    requires HitsIn(hits, |nodes|)
    decreases |hits|
  {
    if |hits| == 0 then Ok([])
    else
      var last := hits[|hits| - 1];
      match Listing(nodes, hits[..|hits| - 1])
      case Err(e) => Err(e)
      case Ok(entries) =>
        if last.Str? then Err(NotAnElement)
        else Ok(entries + [EntryOf(|hits| - 1, nodes[last.id])])
  }

  /** The loop of `list_elements` over the matches. */
  method ListHits(nodes: seq<Node>, hits: seq<Hit>) returns (r: Result<seq<Entry>, Failure>)
    requires HitsIn(hits, |nodes|)
    ensures r == Listing(nodes, hits)
  {
    var result: seq<Entry> := [];
    var i := 0;
    while i < |hits|
      invariant 0 <= i <= |hits|
      invariant Listing(nodes, hits[..i]) == Ok(result)
    {
      assert hits[..i + 1][..i] == hits[..i];
      if hits[i].Str? {
        ListingSpec(nodes, hits);
        return Err(NotAnElement);
      }
      result := result + [EntryOf(i, nodes[hits[i].id])];
      i := i + 1;
    }
    assert hits[..i] == hits;
    return Ok(result);
  }

  /** The `elem.set(key, value)` loop over the attributes of a new element. */
  method SetEach(attributes: seq<(string, string)>) returns (attrs: map<string, string>)
    ensures attrs == Assigned(attributes)
  {
    attrs := map[];
    var k := 0;
    while k < |attributes|
      invariant 0 <= k <= |attributes|
      invariant attrs == Assigned(attributes[..k])
    {
      assert attributes[..k + 1][..k] == attributes[..k];
      attrs := attrs[attributes[k].0 := attributes[k].1];
      k := k + 1;
    }
    assert attributes[..k] == attributes;
  }

  /** One entry per match, in match order, numbered by position, when every match is an
      element; a failure as soon as one is a string. */
  lemma ListingSpec(nodes: seq<Node>, hits: seq<Hit>)
    requires HitsIn(hits, |nodes|)
    ensures Listing(nodes, hits).Err? <==> exists k :: 0 <= k < |hits| && hits[k].Str?
    ensures Listing(nodes, hits).Err? ==> Listing(nodes, hits) == Err(NotAnElement)
    ensures Listing(nodes, hits).Ok? ==>
      |Listing(nodes, hits).value| == |hits|
      && forall k :: 0 <= k < |hits| ==> Listing(nodes, hits).value[k] == EntryOf(k, nodes[hits[k].id])
  {
    ListingFails(nodes, hits);
    if Listing(nodes, hits).Ok? {
      ListingEntries(nodes, hits);
    }
  }

  /** The listing fails, with `NotAnElement`, exactly when some match is a string. */
  lemma {:induction false} ListingFails(nodes: seq<Node>, hits: seq<Hit>)
    requires HitsIn(hits, |nodes|)
    ensures Listing(nodes, hits).Err? <==> exists k :: 0 <= k < |hits| && hits[k].Str?
    ensures Listing(nodes, hits).Err? ==> Listing(nodes, hits) == Err(NotAnElement)
    decreases |hits|
  {
    if |hits| > 0 {
      var n := |hits| - 1;
      var init := hits[..n];
      ListingFails(nodes, init);
      if Listing(nodes, init).Err? {
        var k :| 0 <= k < |init| && init[k].Str?;
        assert hits[k].Str?;
      } else if hits[n].Elem? {
        forall k | 0 <= k < |hits| ensures hits[k].Elem? {
          if k < n {
            assert init[k] == hits[k];
          }
        }
      }
    }
  }

  /** A listing that succeeds has one entry per match, numbered by position. */
  lemma {:induction false} ListingEntries(nodes: seq<Node>, hits: seq<Hit>)
    requires HitsIn(hits, |nodes|) && Listing(nodes, hits).Ok?
    ensures |Listing(nodes, hits).value| == |hits|
    ensures forall k :: 0 <= k < |hits| ==> hits[k].Elem? && Listing(nodes, hits).value[k] == EntryOf(k, nodes[hits[k].id])
    decreases |hits|
  {
    if |hits| > 0 {
      var n := |hits| - 1;
      var init := hits[..n];
      ListingLast(nodes, hits);
      ListingEntries(nodes, init);
      EntriesSnoc(nodes, hits, Listing(nodes, init).value);
    }
  }

  /** Appending the last match's entry to entries that describe all earlier matches gives
      entries that describe all matches. */
  lemma EntriesSnoc(nodes: seq<Node>, hits: seq<Hit>, u: seq<Entry>)
    requires HitsIn(hits, |nodes|) && |hits| > 0 && |u| == |hits| - 1 && hits[|u|].Elem?
    requires forall k :: 0 <= k < |u| ==> hits[..|u|][k].Elem? && u[k] == EntryOf(k, nodes[hits[..|u|][k].id])
    ensures forall k :: 0 <= k < |hits| ==>
      hits[k].Elem? && (u + [EntryOf(|u|, nodes[hits[|u|].id])])[k] == EntryOf(k, nodes[hits[k].id])
  {
    var v := u + [EntryOf(|u|, nodes[hits[|u|].id])];
    forall k | 0 <= k < |hits| ensures hits[k].Elem? && v[k] == EntryOf(k, nodes[hits[k].id]) {
      if k < |u| {
        assert hits[..|u|][k] == hits[k] && v[k] == u[k];
      }
    }
  }

  /** A successful listing of a non-empty match list extends the listing of all but the last
      match by the last match's entry. */
  lemma ListingLast(nodes: seq<Node>, hits: seq<Hit>)
    requires HitsIn(hits, |nodes|) && Listing(nodes, hits).Ok? && |hits| > 0
    ensures HitsIn(hits[..|hits| - 1], |nodes|) && hits[|hits| - 1].Elem?
    ensures Listing(nodes, hits[..|hits| - 1]).Ok?
    ensures Listing(nodes, hits).value
      == Listing(nodes, hits[..|hits| - 1]).value + [EntryOf(|hits| - 1, nodes[hits[|hits| - 1].id])]
  {
  }

  // ---------------------------------------------------------------------------------------
  // Saving

  const XmlDeclaration := "<?xml" + " version=\"1.0\" encoding=\"UTF-8\"?>\n"

  /** `save`'s rule for non-HTML output: the declaration goes in front unless the text
      already starts with one. */
  function WithDeclaration(s: string): string {
    if StartsWith(s, "<?xml") then s else XmlDeclaration + s
  }

  /** The result always starts with a declaration, ends with the serialised tree, adds the
      declaration exactly when there was none, and never adds a second one. */
  lemma WithDeclarationSpec(s: string)
    ensures StartsWith(WithDeclaration(s), "<?xml") && EndsWith(WithDeclaration(s), s)
    ensures WithDeclaration(s) == s <==> StartsWith(s, "<?xml")
    ensures WithDeclaration(WithDeclaration(s)) == WithDeclaration(s)
  {
    var d := XmlDeclaration + s;
    assert d[..5] == "<?xml";
    assert d[|d| - |s|..] == s;
  }

  /** Why `save` or `backup` does not write: a remote file without an output path (raised),
      no backup of a remote file, or a tree lxml's serialiser refuses because ElementTree
      built it (the TypeError `save` catches and reports as False). */
  datatype StoreError = RemoteWithoutOutput | RemoteBackup | ForeignTree

  class FileEditor {
    const filePath: string
    const isRemote: bool
    /** `original_content`: the text as fetched or read, never changed by edits. */
    const content: string
    const fileType: FileType
    const lxmlAvailable: bool
    /** lxml's `_Element.xpath`. */
    const xpath: Evaluator
    const parser: Parser
    var nodes: seq<Node>

    ghost predicate Valid()
      reads this
    {
      && isRemote == IsRemote(filePath)
      && fileType == Classify(Extension(filePath), content)
      && (parser == Lxml ==> lxmlAvailable)
      && Sound(xpath)
      && WellFormed(nodes)
    }

    constructor (filePath: string, content: string, fileType: FileType, lxmlAvailable: bool,
                 xpath: Evaluator, parser: Parser, nodes: seq<Node>)
      requires fileType == Classify(Extension(filePath), content)
      requires parser == Lxml ==> lxmlAvailable
      requires Sound(xpath) && WellFormed(nodes)
      ensures Valid()
      ensures this.filePath == filePath && this.isRemote == IsRemote(filePath)
      ensures this.content == content && this.fileType == fileType
      ensures this.lxmlAvailable == lxmlAvailable && this.xpath == xpath
      ensures this.parser == parser && this.nodes == nodes
    {
      this.filePath := filePath;
      this.isRemote := IsRemote(filePath);
      this.content := content;
      this.fileType := fileType;
      this.lxmlAvailable := lxmlAvailable;
      this.xpath := xpath;
      this.parser := parser;
      this.nodes := nodes;
    }

    /** `find_by_xpath`: without lxml, NotImplementedError; on an lxml tree, the evaluator
        under the fixed map, its errors wrapped as "Invalid XPath expression"; on an
        ElementTree tree, no matches at all. */
    function Find(x: string): (r: Result<seq<Hit>, Failure>)
      reads this
      requires Valid()
      ensures r.Ok? ==> HitsIn(r.value, |nodes|)
      ensures r == Err(XPathUnavailable) <==> !lxmlAvailable
      ensures lxmlAvailable && parser == Etree ==> r == Ok([])
      ensures r.Err? && lxmlAvailable ==> parser == Lxml && xpath(nodes, FixedNs(), x).Err?
    {
      if !lxmlAvailable then Err(XPathUnavailable)
      else if parser == Etree then Ok([])
      else match xpath(nodes, FixedNs(), x)
        case Ok(hits) => Ok(hits)
        case Err(m) => Err(InvalidXPath(m))
    }

    /** `get_element_text` */
    function GetElementText(x: string): (r: Result<string, Failure>)
      reads this
      requires Valid()
      ensures r.Err? <==> Find(x).Err?
      ensures r.Ok? ==> r.value == FirstText(nodes, Find(x).value)
    {
      match Find(x)
      case Err(e) => Err(e)
      case Ok(hits) => Ok(FirstText(nodes, hits))
    }

    /** `get_element_attribute` */
    function GetElementAttribute(x: string, name: string): (r: Result<string, Failure>)
      reads this
      requires Valid()
      ensures r.Err? <==> Find(x).Err?
      ensures r.Ok? ==> r.value == FirstAttribute(nodes, Find(x).value, name)
    {
      match Find(x)
      case Err(e) => Err(e)
      case Ok(hits) => Ok(FirstAttribute(nodes, hits, name))
    }

    /** `set_element_text`: True iff something matches, even a string match, which is left
        alone; only the first match changes. */
    method SetElementText(x: string, t: string) returns (r: Result<bool, Failure>)
      requires Valid()
      modifies this`nodes
      ensures Valid()
      ensures old(Find(x)).Err? ==> r == Err(old(Find(x)).error) && nodes == old(nodes)
      ensures old(Find(x)).Ok? ==>
        r == Ok(|old(Find(x)).value| > 0) && nodes == SetFirstText(old(nodes), old(Find(x)).value, t)
    {
      var found := Find(x);
      if found.Err? {
        return Err(found.error);
      }
      var hits := found.value;
      if |hits| > 0 {
        FirstEditSpec(nodes, hits, t, "", "");
        if hits[0].Elem? {
          nodes := SetText(nodes, hits[0].id, t);
        }
        return Ok(true);
      }
      return Ok(false);
    }

    /** `set_element_attribute`: as `set_element_text`, for the attribute `name`. */
    method SetElementAttribute(x: string, name: string, v: string) returns (r: Result<bool, Failure>)
      requires Valid()
      modifies this`nodes
      ensures Valid()
      ensures old(Find(x)).Err? ==> r == Err(old(Find(x)).error) && nodes == old(nodes)
      ensures old(Find(x)).Ok? ==>
        r == Ok(|old(Find(x)).value| > 0) && nodes == SetFirstAttribute(old(nodes), old(Find(x)).value, name, v)
    {
      var found := Find(x);
      if found.Err? {
        return Err(found.error);
      }
      var hits := found.value;
      if |hits| > 0 {
        FirstEditSpec(nodes, hits, "", name, v);
        if hits[0].Elem? {
          nodes := SetAttr(nodes, hits[0].id, name, v);
        }
        return Ok(true);
      }
      return Ok(false);
    }

    /** `add_element`: a new last child of the first match, with the text when it is not
        empty and each given attribute; False iff nothing matches. A string match cannot
        take a child. */
    method AddElement(x: string, tag: string, text: string, attributes: seq<(string, string)>)
      returns (r: Result<bool, Failure>)
      requires Valid()
      modifies this`nodes
      ensures Valid()
      ensures old(Find(x)).Err? ==> r == Err(old(Find(x)).error) && nodes == old(nodes)
      ensures old(Find(x)).Ok? && |old(Find(x)).value| == 0 ==> r == Ok(false) && nodes == old(nodes)
      ensures old(Find(x)).Ok? && |old(Find(x)).value| > 0 && old(Find(x)).value[0].Str? ==>
        r == Err(NotAnElement) && nodes == old(nodes)
      ensures old(Find(x)).Ok? && |old(Find(x)).value| > 0 && old(Find(x)).value[0].Elem? ==>
        r == Ok(true)
        && nodes == AppendChild(old(nodes), old(Find(x)).value[0].id, tag,
                                if text == "" then None else Some(text), Assigned(attributes))
    {
      var found := Find(x);
      if found.Err? {
        return Err(found.error);
      }
      var hits := found.value;
      if |hits| == 0 {
        return Ok(false);
      }
      if hits[0].Str? {
        return Err(NotAnElement);
      }
      var parent := hits[0].id;
      var attrs := SetEach(attributes);
      AppendChildIsLast(nodes, parent, tag, if text == "" then None else Some(text), attrs);
      nodes := AppendChild(nodes, parent, tag, if text == "" then None else Some(text), attrs);
      return Ok(true);
    }

    /** `remove_element`: the first match leaves its parent; False when nothing matches or
        the match has no parent (the root), and then nothing changes. */
    method RemoveElement(x: string) returns (r: Result<bool, Failure>)
      requires Valid()
      modifies this`nodes
      ensures Valid()
      ensures old(Find(x)).Err? ==> r == Err(old(Find(x)).error) && nodes == old(nodes)
      ensures old(Find(x)).Ok? && |old(Find(x)).value| == 0 ==> r == Ok(false) && nodes == old(nodes)
      ensures old(Find(x)).Ok? && |old(Find(x)).value| > 0 ==>
        match old(Find(x)).value[0]
        case Str(_) => r == Err(NotAnElement) && nodes == old(nodes)
        case Elem(id) =>
          if old(nodes)[id].parent.None? then r == Ok(false) && nodes == old(nodes)
          else r == Ok(true) && 0 < id && nodes == Detach(old(nodes), id)
    {
      var found := Find(x);
      if found.Err? {
        return Err(found.error);
      }
      var hits := found.value;
      if |hits| == 0 {
        return Ok(false);
      }
      match hits[0]
      case Str(_) =>
        return Err(NotAnElement);
      case Elem(id) =>
        if nodes[id].parent.None? {
          return Ok(false);
        }
        DetachRemovesSubtree(nodes, id, 0);
        nodes := Detach(nodes, id);
        return Ok(true);
    }

    /** What `extract_data_uri(xpath)` returns; an error of the query is raised. */
    function ExtractSpec(x: string): Result<Extraction, Failure>
      reads this
      requires Valid()
    {
      match Find(x)
      case Err(e) => Err(e)
      case Ok(hits) =>
        if |hits| == 0 then Ok(NoElements)
        else if hits[0].Str? then Ok(NoDataUri)
        else match FirstDataUriOf(nodes[hits[0].id].attrs, UriAttributes)
          case None => Ok(NoDataUri)
          case Some(uri) => Ok(DecodeDataUri(uri))
    }

    /** `extract_data_uri`: only the first match is looked at; its `href`, `xlink:href`, `src`
        and `data` attributes are tried in that order for a value starting with `data:`. */
    method ExtractDataUri(x: string) returns (r: Result<Extraction, Failure>)
      requires Valid()
      ensures r == ExtractSpec(x)
    {
      var found := Find(x);
      if found.Err? {
        return Err(found.error);
      }
      var elements := found.value;
      if |elements| == 0 {
        return Ok(NoElements);
      }
      var element := elements[0];
      if element.Str? {
        return Ok(NoDataUri);
      }
      var dataUri := ScanUriAttributes(nodes[element.id].attrs, UriAttributes);
      if dataUri.None? {
        return Ok(NoDataUri);
      }
      return Ok(DecodeDataUri(dataUri.value));
    }

    /** The reported data URI is the earliest of the first match's four attributes to hold
        one, decoded; "No Data URI found" means none of them does. */
    lemma ExtractSpecSound(x: string)
      requires Valid()
      ensures ExtractSpec(x).Ok? && (ExtractSpec(x).value.Decoded? || ExtractSpec(x).value == DecodeFailed) ==>
        |Find(x).value| > 0 && Find(x).value[0].Elem?
        && exists j :: 0 <= j < |UriAttributes|
             && var attrs := nodes[Find(x).value[0].id].attrs;
             UriAttributes[j] in attrs && StartsWith(attrs[UriAttributes[j]], "data:")
             && ExtractSpec(x).value == DecodeDataUri(attrs[UriAttributes[j]])
      ensures ExtractSpec(x) == Ok(NoDataUri) ==>
        |Find(x).value| > 0 && (Find(x).value[0].Elem? ==>
          forall j :: 0 <= j < |UriAttributes| ==>
            var attrs := nodes[Find(x).value[0].id].attrs;
            !(UriAttributes[j] in attrs && StartsWith(attrs[UriAttributes[j]], "data:")))
    {
      if Find(x).Ok? && |Find(x).value| > 0 && Find(x).value[0].Elem? {
        FirstDataUriOfSpec(nodes[Find(x).value[0].id].attrs, UriAttributes);
      }
    }

    /** `list_elements`: one entry per match, in order, numbered by position; a string
        match has no tag, so the call fails. */
    method ListElements(x: string) returns (r: Result<seq<Entry>, Failure>)
      requires Valid()
      ensures Find(x).Err? ==> r == Err(Find(x).error)
      ensures Find(x).Ok? ==> r == Listing(nodes, Find(x).value)
    {
      var found := Find(x);
      if found.Err? {
        return Err(found.error);
      }
      r := ListHits(nodes, found.value);
    }

    /** `save(output_path)`: where and what is written. `outputPath` is `""` when none is
        given; `serialized` is the library's serialisation of the tree. With lxml installed
        but an ElementTree tree, lxml cannot serialise it and `save` returns False. */
    function Save(outputPath: string, serialized: string): (r: Result<(string, string), StoreError>)
      reads this
      ensures r.Err? <==> (isRemote && outputPath == "") || (lxmlAvailable && parser == Etree)
      ensures r == Err(RemoteWithoutOutput) <==> isRemote && outputPath == ""
      ensures r == Err(ForeignTree) <==> !(isRemote && outputPath == "") && lxmlAvailable && parser == Etree
      ensures r.Ok? ==> r.value.0 == if outputPath != "" then outputPath else filePath
      ensures r.Ok? && lxmlAvailable && fileType != Html ==>
        StartsWith(r.value.1, "<?xml") && EndsWith(r.value.1, serialized)
        && (r.value.1 == serialized <==> StartsWith(serialized, "<?xml"))
      ensures r.Ok? && !(lxmlAvailable && fileType != Html) ==> r.value.1 == serialized
    {
      WithDeclarationSpec(serialized);
      if isRemote && outputPath == "" then Err(RemoteWithoutOutput)
      else if lxmlAvailable && parser == Etree then Err(ForeignTree)
      else
        var path := if outputPath != "" then outputPath else filePath;
        Ok((path, if lxmlAvailable && fileType != Html then WithDeclaration(serialized) else serialized))
    }

    /** `backup()`: `<file>.backup` holding the content as loaded, edits or not; refused
        for a remote file. */
    function Backup(): (r: Result<(string, string), StoreError>)
      reads this
      ensures r.Err? <==> isRemote
      ensures r.Ok? ==> r.value == (filePath + ".backup", content)
    {
      if isRemote then Err(RemoteBackup) else Ok((filePath + ".backup", content))
    }
  }
}
