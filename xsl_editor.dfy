/** The document editing engine of xsl/editor.py: the `FileEditor` class with its namespace
    registry, its query, the first-match getters, the broadcast setters, attribute-name
    resolution, data-URI extraction, element listing and file-type detection. Parsing and
    XPath evaluation are the parser and evaluator the editor is given. */
module XslEditor {
  import opened Wrappers
  import opened Strings
  import opened Tree
  import opened Namespaces
  import opened DataUri

  /** Which parser produced the current tree. */
  datatype Parser = NotLoaded | Lxml | Etree

  /** The `ValueError`s `query` raises. `expr` is the expression as evaluated, that is after
      the fallback's prefix rewriting. */
  datatype QueryError = NoFileLoaded | InvalidXPath(expr: string, detail: string)

  datatype FileType = Svg | Html | Xml | Unknown

  /** What lxml's parser gives: the tree and the root's `nsmap` items in order. */
  datatype ParsedDoc = ParsedDoc(nodes: seq<Node>, nsmap: seq<Decl>)

  /** One entry of `list_elements`. */
  datatype ElementInfo = ElementInfo(tag: string, text: Option<string>, attributes: map<string, string>)

  datatype Failure = QueryFailed(QueryError) | ParseFailed(ParseError)

  /** The dictionaries `extract_data_uri` returns: the parsed data URI tagged with the path,
      "No elements found" (before or after re-querying the owner element), "No data URI found"
      and "Error extracting data URI" (the last two also carrying `mime_type` `text/plain` and
      empty `data`). */
  datatype Extracted =
    | Found(info: DataUriInfo, xpath: string)
    | NoElements(afterRequery: bool)
    | NoDataUri
    | Failed(cause: Failure)

  const NoXPathMethod := "'xml.etree.ElementTree.Element' object has no attribute 'xpath'"

  /** `is_remote` */
  predicate IsRemote(path: string) {
    StartsWith(path, "http://") || StartsWith(path, "https://") || StartsWith(path, "ftp://")
  }

  /** The fallback's rewriting of `xpath`: each registered `prefix:`, in registry order,
      replaced by `{'uri'}`. */
  function Rewrite(x: string, reg: Registry): string
    decreases |reg|
  {
    if |reg| == 0 then x
    else
      var last := reg[|reg| - 1];
      Replace(Rewrite(x, reg[..|reg| - 1]), last.0 + ":", "{'" + last.1 + "'}")
  }

  /** An expression naming no registered prefix goes to the fallback evaluator unchanged. */
  lemma {:induction false} RewriteUnchanged(x: string, reg: Registry)
    requires forall k :: 0 <= k < |reg| ==> !Contains(x, reg[k].0 + ":")
    ensures Rewrite(x, reg) == x
    decreases |reg|
  {
    if |reg| > 0 {
      RewriteUnchanged(x, reg[..|reg| - 1]);
      var last := reg[|reg| - 1];
      ReplaceAbsent(x, last.0 + ":", "{'" + last.1 + "'}");
    }
  }

  function Lift(res: Result<seq<Hit>, string>, expr: string): Result<seq<Hit>, QueryError> {
    match res
    case Ok(hits) => Ok(hits)
    case Err(m) => Err(InvalidXPath(expr, m))
  }

  /** `_get_attribute` on an element's attributes: the literal name; else, for an `xlink:`
      name, `{<xlink uri>}local`; else, for a registered prefix, `{uri}local`; else absent. */
  function ResolveAttribute(attrs: map<string, string>, reg: Registry, name: string): Option<string> {
    if name in attrs then Some(attrs[name])
    else if StartsWith(name, "xlink:") then
      var key := "{" + (if Lookup(reg, "xlink").Some? then Lookup(reg, "xlink").value else "") + "}" + name[6..];
      if key in attrs then Some(attrs[key]) else None
    else if ':' in name then
      var (prefix, local) := SplitOnce(name, ':');
      if Lookup(reg, prefix).Some? then
        var key := "{" + Lookup(reg, prefix).value + "}" + local;
        if key in attrs then Some(attrs[key]) else None
      else None
    else None
  }

  /** The key `set_element_attribute` stores a name under: the name itself when unprefixed,
      `{uri}local` for a registered prefix, nothing for an unregistered one. */
  function AttributeKey(reg: Registry, name: string): Option<string> {
    if ':' in name then
      var (prefix, local) := SplitOnce(name, ':');
      if Lookup(reg, prefix).Some? then Some("{" + Lookup(reg, prefix).value + "}" + local) else None
    else Some(name)
  }

  lemma XlinkSplit(name: string)
    requires StartsWith(name, "xlink:")
    ensures ':' in name && SplitOnce(name, ':') == ("xlink", name[6..])
  {
    assert name[5] == ':';
    assert name[..5] == "xlink";
    assert ':' !in name[..5];
    assert IndexOf(name, ':') == 5;
  }

  /** What `set_element_attribute` stores, `_get_attribute` reads back under the same name
      (unless a literal attribute of that prefixed name was already there, which the literal
      lookup finds first). */
  lemma SetThenResolve(attrs: map<string, string>, reg: Registry, name: string, v: string)
    requires AttributeKey(reg, name).Some?
    requires ':' in name ==> name !in attrs
    ensures ResolveAttribute(attrs[AttributeKey(reg, name).value := v], reg, name) == Some(v)
  {
    if StartsWith(name, "xlink:") {
      XlinkSplit(name);
    }
  }

  /** Every element hit gets text `t`, in hit order. */
  function TextSet(nodes: seq<Node>, hits: seq<Hit>, t: string): (r: seq<Node>)
    requires HitsIn(hits, |nodes|)
    ensures |r| == |nodes|
    decreases |hits|
  {
    if |hits| == 0 then nodes
    else
      var before := TextSet(nodes, hits[..|hits| - 1], t);
      var h := hits[|hits| - 1];
      if h.Elem? then SetText(before, h.id, t) else before
  }

  /** Broadcast text: exactly the matched elements get the new text; nothing else changes. */
  lemma {:induction false} TextSetSpec(nodes: seq<Node>, hits: seq<Hit>, t: string, i: nat)
    requires HitsIn(hits, |nodes|) && i < |nodes|
    ensures TextSet(nodes, hits, t)[i] == if Elem(i) in hits then nodes[i].(text := Some(t)) else nodes[i]
    decreases |hits|
  {
    if |hits| > 0 {
      var init := hits[..|hits| - 1];
      TextSetSpec(nodes, init, t, i);
      assert hits == init + [hits[|hits| - 1]];
    }
  }

  /** Every element hit gets attribute `key` set to `v`, in hit order. */
  function AttrSet(nodes: seq<Node>, hits: seq<Hit>, key: string, v: string): (r: seq<Node>)
    requires HitsIn(hits, |nodes|)
    ensures |r| == |nodes|
    decreases |hits|
  {
    if |hits| == 0 then nodes
    else
      var before := AttrSet(nodes, hits[..|hits| - 1], key, v);
      var h := hits[|hits| - 1];
      if h.Elem? then SetAttr(before, h.id, key, v) else before
  }

  /** Broadcast attribute: exactly the matched elements get the attribute; nothing else changes. */
  lemma {:induction false} AttrSetSpec(nodes: seq<Node>, hits: seq<Hit>, key: string, v: string, i: nat)
    requires HitsIn(hits, |nodes|) && i < |nodes|
    ensures AttrSet(nodes, hits, key, v)[i]
      == if Elem(i) in hits then nodes[i].(attrs := nodes[i].attrs[key := v]) else nodes[i]
    decreases |hits|
  {
    if |hits| > 0 {
      var init := hits[..|hits| - 1];
      AttrSetSpec(nodes, init, key, v, i);
      assert hits == init + [hits[|hits| - 1]];
    }
  }

  /** `detect_file_type` on a tree (`loaded` false when there is none). */
  function DetectFileType(loaded: bool, nodes: seq<Node>): FileType
    requires loaded ==> |nodes| > 0
  {
    if !loaded || !HasChildren(nodes) then Unknown
    else if Contains(nodes[0].tag, "svg") then Svg
    else if exists i :: 0 < i < |nodes| && nodes[i].tag == "html" && Below(nodes, i, 0) then Html
    else Xml
  }

  lemma BelowSameShape(a: seq<Node>, b: seq<Node>, i: nat, anc: nat)
    requires |a| == |b| && forall k :: 0 <= k < |a| ==> a[k].parent == b[k].parent
    ensures Below(a, i, anc) == Below(b, i, anc)
    decreases i
  {
    if i < |a| && a[i].parent.Some? && a[i].parent.value < i {
      BelowSameShape(a, b, a[i].parent.value, anc);
    }
  }

  /** Editing text and attributes never changes what kind of file the editor reports. */
  lemma DetectIgnoresContent(nodes: seq<Node>, hits: seq<Hit>, t: string, key: string, v: string)
    requires |nodes| > 0 && HitsIn(hits, |nodes|)
    ensures DetectFileType(true, TextSet(nodes, hits, t)) == DetectFileType(true, nodes)
    ensures DetectFileType(true, AttrSet(nodes, hits, key, v)) == DetectFileType(true, nodes)
  {
    var a := TextSet(nodes, hits, t);
    var b := AttrSet(nodes, hits, key, v);
    forall i | 0 <= i < |nodes| ensures a[i].parent == nodes[i].parent && a[i].tag == nodes[i].tag
      && b[i].parent == nodes[i].parent && b[i].tag == nodes[i].tag
    {
      TextSetSpec(nodes, hits, t, i);
      AttrSetSpec(nodes, hits, key, v, i);
    }
    forall i | 0 <= i < |nodes| ensures Below(a, i, 0) == Below(nodes, i, 0) && Below(b, i, 0) == Below(nodes, i, 0) {
      BelowSameShape(a, nodes, i, 0);
      BelowSameShape(b, nodes, i, 0);
    }
    assert HasChildren(a) == HasChildren(nodes) by {
      if HasChildren(nodes) {
        var i :| 0 < i < |nodes| && nodes[i].parent == Some(0);
        assert a[i].parent == Some(0);
      }
      if HasChildren(a) {
        var i :| 0 < i < |a| && a[i].parent == Some(0);
        assert nodes[i].parent == Some(0);
      }
    }
    assert HasChildren(b) == HasChildren(nodes) by {
      if HasChildren(nodes) {
        var i :| 0 < i < |nodes| && nodes[i].parent == Some(0);
        assert b[i].parent == Some(0);
      }
      if HasChildren(b) {
        var i :| 0 < i < |b| && b[i].parent == Some(0);
        assert nodes[i].parent == Some(0);
      }
    }
  }

  /** The data-URI attribute names tried on each element: the one the path names first. */
  function Candidates(attr: Option<string>): seq<string> {
    (if attr.Some? then [attr.value] else []) + ["xlink:href", "href", "data", "src"]
  }

  /** `uri and is_data_uri(uri)` */
  predicate Accepts(uri: Option<string>) {
    uri.Some? && uri.value != "" && IsDataUri(uri.value)
  }

  function InfoOf(n: Node): ElementInfo {
    ElementInfo(n.tag, n.text, n.attrs)
  }

  class FileEditor {
    const filePath: string
    const lxmlAvailable: bool
    /** lxml's `_Element.xpath`, given the registry as `namespaces`. */
    const xpath: Evaluator
    /** ElementTree's `Element.findall`, which takes no namespaces. */
    const findAll: Evaluator
    var ns: Registry
    var nodes: seq<Node>
    var parser: Parser

    ghost predicate Valid()
      reads this
    {
      && Distinct(ns)
      && Sound(xpath) && Sound(findAll)
      && (parser != NotLoaded ==> WellFormed(nodes))
    }

    /** The state `__init__` sets up before loading: no tree, the seeded registry. */
    constructor (filePath: string, lxmlAvailable: bool, xpath: Evaluator, findAll: Evaluator)
      requires Sound(xpath) && Sound(findAll)
      ensures Valid()
      ensures this.filePath == filePath && this.lxmlAvailable == lxmlAvailable
      ensures this.xpath == xpath && this.findAll == findAll
      ensures ns == Seed() && parser == NotLoaded
    {
      this.filePath := filePath;
      this.lxmlAvailable := lxmlAvailable;
      this.xpath := xpath;
      this.findAll := findAll;
      ns := Seed();
      nodes := [];
      parser := NotLoaded;
      SeedSpec();
    }

    /** `_parse_content`: lxml's tree and its declared prefixes when lxml is there and parses
        the content; otherwise ElementTree's tree and no new prefixes; "Cannot parse file"
        when that fails too. */
    method ParseContent(lxmlParse: Option<ParsedDoc>, etreeParse: Result<seq<Node>, string>)
      returns (r: Result<(), string>)
      requires Valid()
      requires lxmlParse.Some? ==> WellFormed(lxmlParse.value.nodes)
      requires etreeParse.Ok? ==> WellFormed(etreeParse.value)
      modifies this`ns, this`nodes, this`parser
      ensures Valid()
      ensures lxmlAvailable && lxmlParse.Some? ==>
        r.Ok? && parser == Lxml && nodes == lxmlParse.value.nodes
        && ns == Absorb(old(ns), lxmlParse.value.nsmap)
      ensures !(lxmlAvailable && lxmlParse.Some?) ==>
        ns == old(ns)
        && (etreeParse.Ok? ==> r.Ok? && parser == Etree && nodes == etreeParse.value)
        && (etreeParse.Err? ==> r == Err("Cannot parse file: " + etreeParse.error)
                                && parser == old(parser) && nodes == old(nodes))
    {
      if lxmlAvailable && lxmlParse.Some? {
        nodes := lxmlParse.value.nodes;
        parser := Lxml;
        var decls := lxmlParse.value.nsmap;
        ghost var seeded := ns;
        var k := 0;
        while k < |decls|
          invariant 0 <= k <= |decls|
          invariant ns == Absorb(seeded, decls[..k])
          invariant Distinct(ns)
          invariant nodes == lxmlParse.value.nodes && parser == Lxml
        {
          var (prefix, uri) := decls[k];
          assert decls[..k + 1][..k] == decls[..k];
          if prefix.Some? {
            PutDistinct(ns, prefix.value, uri);
            ns := Put(ns, prefix.value, uri);
          }
          k := k + 1;
        }
        assert decls[..k] == decls;
        return Ok(());
      }
      match etreeParse {
        case Ok(tree) =>
          nodes := tree;
          parser := Etree;
          r := Ok(());
        case Err(msg) =>
          r := Err("Cannot parse file: " + msg);
      }
    }

    /** What `query(xpath)` returns or raises. */
    function QuerySpec(x: string): (r: Result<seq<Hit>, QueryError>)
      reads this
      requires Valid()
      ensures r.Ok? ==> parser != NotLoaded && HitsIn(r.value, |nodes|)
    {
      if parser == NotLoaded then Err(NoFileLoaded)
      else if lxmlAvailable then
        if parser == Lxml then Lift(xpath(nodes, ns, x), x) else Err(InvalidXPath(x, NoXPathMethod))
      else
        var e := if ':' in x then Rewrite(x, ns) else x;
        Lift(findAll(nodes, [], e), e)
    }

    /** `query`: no tree is "No file loaded"; with lxml the registry goes to the evaluator;
        without it the expression is rewritten prefix by prefix when it holds a `:`; every
        evaluator error becomes "Invalid XPath expression". */
    method Query(x: string) returns (r: Result<seq<Hit>, QueryError>)
      requires Valid()
      ensures r == QuerySpec(x)
      ensures r.Ok? ==> HitsIn(r.value, |nodes|)
    {
      if parser == NotLoaded {
        return Err(NoFileLoaded);
      }
      if lxmlAvailable {
        if parser == Lxml {
          r := Lift(xpath(nodes, ns, x), x);
        } else {
          r := Err(InvalidXPath(x, NoXPathMethod));
        }
        return;
      }
      var e := x;
      if ':' in x {
        var k := 0;
        while k < |ns|
          invariant 0 <= k <= |ns|
          invariant e == Rewrite(x, ns[..k])
        {
          assert ns[..k + 1][..k] == ns[..k];
          e := Replace(e, ns[k].0 + ":", "{'" + ns[k].1 + "'}");
          k := k + 1;
        }
        assert ns[..k] == ns;
      }
      r := Lift(findAll(nodes, [], e), e);
    }

    /** `_get_attribute(hit, name)`: strings have no attributes. Ids outside the tree, which a
        sound evaluator never reports, have none either. */
    function Attribute(h: Hit, name: string): Option<string>
      reads this
    {
      if h.Str? || h.id >= |nodes| then None else ResolveAttribute(nodes[h.id].attrs, ns, name)
    }

    /** `get_element_text(xpath, default)`: the first match's text, `default` when there is
        no match, the match is not an element, or its text is None or empty. */
    function GetElementText(x: string, default: string): (r: Result<string, QueryError>)
      reads this
      requires Valid()
      ensures r.Err? <==> QuerySpec(x).Err?
      ensures r.Ok? && r.value != default ==>
        |QuerySpec(x).value| > 0 && QuerySpec(x).value[0].Elem?
        && nodes[QuerySpec(x).value[0].id].text == Some(r.value) && r.value != ""
      ensures (r.Ok? && |QuerySpec(x).value| > 0 && QuerySpec(x).value[0].Elem?
               && nodes[QuerySpec(x).value[0].id].text.Some? && nodes[QuerySpec(x).value[0].id].text.value != "")
        ==> r.value == nodes[QuerySpec(x).value[0].id].text.value
    {
      match QuerySpec(x)
      case Err(e) => Err(e)
      case Ok(hits) =>
        if |hits| > 0 && hits[0].Elem? then
          var t := nodes[hits[0].id].text;
          Ok(if t.Some? && t.value != "" then t.value else default)
        else Ok(default)
    }

    /** `get_element_attribute(xpath, name, default)`: the first match's resolved attribute,
        `default` when there is no match or the value is None or empty. */
    function GetElementAttribute(x: string, name: string, default: Option<string>): (r: Result<Option<string>, QueryError>)
      reads this
      requires Valid()
      ensures r.Err? <==> QuerySpec(x).Err?
      ensures r.Ok? && |QuerySpec(x).value| == 0 ==> r.value == default
      ensures r.Ok? && r.value != default ==>
        |QuerySpec(x).value| > 0 && Attribute(QuerySpec(x).value[0], name) == r.value && r.value != Some("")
      ensures (r.Ok? && |QuerySpec(x).value| > 0 && Attribute(QuerySpec(x).value[0], name).Some?
               && Attribute(QuerySpec(x).value[0], name).value != "")
        ==> r.value == Attribute(QuerySpec(x).value[0], name)
    {
      match QuerySpec(x)
      case Err(e) => Err(e)
      case Ok(hits) =>
        if |hits| == 0 then Ok(default)
        else
          var v := Attribute(hits[0], name);
          Ok(if v.Some? && v.value != "" then v else default)
    }

    /** `set_element_text`: False iff nothing matches; otherwise every matched element gets
        the text and nothing else changes. */
    method SetElementText(x: string, t: string) returns (r: Result<bool, QueryError>)
      requires Valid()
      modifies this`nodes
      ensures Valid()
      ensures old(QuerySpec(x)).Err? ==> r == Err(old(QuerySpec(x)).error) && nodes == old(nodes)
      ensures old(QuerySpec(x)).Ok? ==>
        r == Ok(|old(QuerySpec(x)).value| > 0) && nodes == TextSet(old(nodes), old(QuerySpec(x)).value, t)
    {
      var q := Query(x);
      if q.Err? {
        return Err(q.error);
      }
      var hits := q.value;
      if |hits| == 0 {
        return Ok(false);
      }
      ghost var start := nodes;
      var k := 0;
      while k < |hits|
        invariant 0 <= k <= |hits|
        invariant nodes == TextSet(start, hits[..k], t)
        invariant WellFormed(nodes)
      {
        assert hits[..k + 1][..k] == hits[..k];
        if hits[k].Elem? {
          ContentEditKeepsShape(nodes, hits[k].id, t, "", "");
          nodes := SetText(nodes, hits[k].id, t);
        }
        k := k + 1;
      }
      assert hits[..k] == hits;
      return Ok(true);
    }

    /** `set_value`, which does what `set_element_text` does. */
    method SetValue(x: string, value: string) returns (r: Result<bool, QueryError>)
      requires Valid()
      modifies this`nodes
      ensures Valid()
      ensures old(QuerySpec(x)).Err? ==> r == Err(old(QuerySpec(x)).error) && nodes == old(nodes)
      ensures old(QuerySpec(x)).Ok? ==>
        r == Ok(|old(QuerySpec(x)).value| > 0) && nodes == TextSet(old(nodes), old(QuerySpec(x)).value, value)
    {
      r := SetElementText(x, value);
    }

    /** `set_element_attribute`: every matched element gets the attribute under its storage
        key; True iff some element was modified, so an unregistered prefix or no element
        match gives False and changes nothing. */
    method SetElementAttribute(x: string, name: string, v: string) returns (r: Result<bool, QueryError>)
      requires Valid()
      modifies this`nodes
      ensures Valid()
      ensures old(QuerySpec(x)).Err? ==> r == Err(old(QuerySpec(x)).error) && nodes == old(nodes)
      ensures old(QuerySpec(x)).Ok? ==>
        var hits := old(QuerySpec(x)).value;
        && r == Ok(AttributeKey(ns, name).Some? && |ElementIds(hits)| > 0)
        && nodes == if AttributeKey(ns, name).Some? then AttrSet(old(nodes), hits, AttributeKey(ns, name).value, v) else old(nodes)
    {
      var q := Query(x);
      if q.Err? {
        return Err(q.error);
      }
      var hits := q.value;
      if |hits| == 0 {
        return Ok(false);
      }
      var modified;
      nodes, modified := SetAttributeOnHits(nodes, hits, ns, name, v);
      return Ok(modified);
    }

    /** The first accepted data URI among one element's candidate attributes. */
    function ScanNames(h: Hit, names: seq<string>): Option<string>
      reads this
    {
      if |names| == 0 then None
      else if Accepts(Attribute(h, names[0])) then Attribute(h, names[0])
      else ScanNames(h, names[1..])
    }

    /** The first accepted data URI, element by element, attribute by attribute. */
    function ScanHits(hits: seq<Hit>, names: seq<string>): Option<string>
      reads this
    {
      if |hits| == 0 then None
      else if ScanNames(hits[0], names).Some? then ScanNames(hits[0], names)
      else ScanHits(hits[1..], names)
    }

    lemma {:induction false} ScanNamesSpec(h: Hit, names: seq<string>)
      ensures ScanNames(h, names).Some? ==>
        Accepts(ScanNames(h, names)) && exists j :: 0 <= j < |names| && Attribute(h, names[j]) == ScanNames(h, names)
      ensures ScanNames(h, names).None? <==> forall j :: 0 <= j < |names| ==> !Accepts(Attribute(h, names[j]))
      decreases |names|
    {
      if |names| > 0 && !Accepts(Attribute(h, names[0])) {
        ScanNamesSpec(h, names[1..]);
        if ScanNames(h, names).Some? {
          var j :| 0 <= j < |names| - 1 && Attribute(h, names[1..][j]) == ScanNames(h, names);
          assert Attribute(h, names[j + 1]) == ScanNames(h, names);
        }
        if forall j :: 0 <= j < |names| - 1 ==> !Accepts(Attribute(h, names[1..][j])) {
          forall j | 0 <= j < |names| ensures !Accepts(Attribute(h, names[j])) {
            if j > 0 { assert names[j] == names[1..][j - 1]; }
          }
        }
      }
    }

    /** The scan finds a data URI stored on some matched element under some candidate name,
        and finds none exactly when no candidate attribute of any match holds one. */
    lemma {:induction false} ScanHitsSpec(hits: seq<Hit>, names: seq<string>)
      ensures ScanHits(hits, names).Some? ==>
        Accepts(ScanHits(hits, names))
        && exists k, j :: 0 <= k < |hits| && 0 <= j < |names| && Attribute(hits[k], names[j]) == ScanHits(hits, names)
      ensures ScanHits(hits, names).None? <==>
        forall k, j :: 0 <= k < |hits| && 0 <= j < |names| ==> !Accepts(Attribute(hits[k], names[j]))
      decreases |hits|
    {
      if |hits| > 0 {
        ScanNamesSpec(hits[0], names);
        ScanHitsSpec(hits[1..], names);
        if ScanNames(hits[0], names).None? {
          if ScanHits(hits, names).Some? {
            var k, j :| 0 <= k < |hits| - 1 && 0 <= j < |names| && Attribute(hits[1..][k], names[j]) == ScanHits(hits, names);
            assert hits[1..][k] == hits[k + 1];
          } else {
            forall k, j | 0 <= k < |hits| && 0 <= j < |names| ensures !Accepts(Attribute(hits[k], names[j])) {
              if k > 0 { assert hits[k] == hits[1..][k - 1]; }
            }
          }
        }
      }
    }

    /** The elements `extract_data_uri` scans: the owner element's matches for a path ending
        in an attribute step, the path's own matches otherwise. */
    function Scanned(x: string): Result<seq<Hit>, QueryError>
      reads this
      requires Valid()
    {
      if ExtractOwner(x).Some? then QuerySpec(ExtractOwner(x).value) else QuerySpec(x)
    }

    /** What `extract_data_uri(xpath)` returns. */
    function ExtractSpec(x: string): Extracted
      reads this
      requires Valid()
    {
      match QuerySpec(x)
      case Err(e) => Failed(QueryFailed(e))
      case Ok(hits) =>
        if |hits| == 0 then NoElements(false)
        else match Scanned(x)
          case Err(e) => Failed(QueryFailed(e))
          case Ok(hs) =>
            if |hs| == 0 then NoElements(true)
            else match ScanHits(hs, Candidates(PathAttribute(x)))
              case None => NoDataUri
              case Some(uri) =>
                match Parse(uri)
                case Ok(info) => Found(info, x)
                case Err(e) => Failed(ParseFailed(e))
    }

    /** A data URI `extract_data_uri` reports is the parse of an accepted value of a candidate
        attribute of a scanned element, tagged with the path as given; "No data URI found"
        means no candidate attribute of any scanned element holds one. */
    lemma ExtractSpecSound(x: string)
      requires Valid()
      ensures ExtractSpec(x).Found? ==>
        && ExtractSpec(x).xpath == x && Scanned(x).Ok?
        && exists h, name :: h in Scanned(x).value && name in Candidates(PathAttribute(x))
             && Accepts(Attribute(h, name)) && Parse(Attribute(h, name).value) == Ok(ExtractSpec(x).info)
      ensures ExtractSpec(x) == NoDataUri ==>
        && Scanned(x).Ok?
        && forall h, name :: h in Scanned(x).value && name in Candidates(PathAttribute(x)) ==> !Accepts(Attribute(h, name))
    {
      if QuerySpec(x).Ok? && Scanned(x).Ok? {
        var hs := Scanned(x).value;
        var names := Candidates(PathAttribute(x));
        ScanHitsSpec(hs, names);
        if ExtractSpec(x).Found? {
          var k, j :| 0 <= k < |hs| && 0 <= j < |names| && Attribute(hs[k], names[j]) == ScanHits(hs, names);
          assert hs[k] in hs && names[j] in names;
        }
        if ExtractSpec(x) == NoDataUri {
          forall h, name | h in hs && name in names ensures !Accepts(Attribute(h, name)) {
            var k :| 0 <= k < |hs| && hs[k] == h;
            var j :| 0 <= j < |names| && names[j] == name;
          }
        }
      }
    }

    /** `extract_data_uri`: the elements are scanned in order, each trying the attribute the
        path names (for a path ending in `/@xlink:href` or `/@href`, whose owner element is
        re-queried) and then `xlink:href`, `href`, `data`, `src`; the first data URI found is
        parsed and tagged with the path. */
    method ExtractDataUri(x: string) returns (r: Extracted)
      requires Valid()
      ensures r == ExtractSpec(x)
    {
      var first := Query(x);
      if first.Err? {
        return Failed(QueryFailed(first.error));
      }
      if |first.value| == 0 {
        return NoElements(false);
      }
      var attr: Option<string> := None;
      var elements := first.value;
      if EndsWith(x, "/@xlink:href") || EndsWith(x, "/@href") {
        attr := if EndsWith(x, "/@xlink:href") then Some("xlink:href") else Some("href");
        var again := Query(ExtractOwner(x).value);
        if again.Err? {
          return Failed(QueryFailed(again.error));
        }
        elements := again.value;
      }
      if |elements| == 0 {
        return NoElements(true);
      }
      assert attr == PathAttribute(x);
      var uri := FirstDataUri(elements, Candidates(attr));
      if uri.None? {
        return NoDataUri;
      }
      var parsed := Parse(uri.value);
      if parsed.Ok? {
        return Found(parsed.value, x);
      }
      return Failed(ParseFailed(parsed.error));
    }

    /** The scan of `extract_data_uri`: the first candidate attribute value, element by
        element, that is a non-empty data URI. */
    method FirstDataUri(elements: seq<Hit>, names: seq<string>) returns (uri: Option<string>)
      requires Valid()
      ensures uri == ScanHits(elements, names)
    {
      var i := 0;
      while i < |elements|
        invariant 0 <= i <= |elements|
        invariant ScanHits(elements, names) == ScanHits(elements[i..], names)
      {
        var j := 0;
        while j < |names|
          invariant 0 <= j <= |names|
          invariant ScanNames(elements[i], names) == ScanNames(elements[i], names[j..])
        {
          var v := Attribute(elements[i], names[j]);
          if v.Some? && v.value != "" && IsDataUri(v.value) {
            return v;
          }
          assert names[j..][1..] == names[j + 1..];
          j := j + 1;
        }
        assert elements[i..][1..] == elements[i + 1..];
        i := i + 1;
      }
      return None;
    }

    /** `list_elements`: tag, text and attributes of each matched element, in order. */
    method ListElements(x: string) returns (r: Result<seq<ElementInfo>, QueryError>)
      requires Valid()
      ensures QuerySpec(x).Err? ==> r == Err(QuerySpec(x).error)
      ensures QuerySpec(x).Ok? ==>
        var ids := ElementIds(QuerySpec(x).value);
        r.Ok? && |r.value| == |ids|
        && forall k :: 0 <= k < |ids| ==> ids[k] < |nodes| && r.value[k] == InfoOf(nodes[ids[k]])
    {
      var q := Query(x);
      if q.Err? {
        return Err(q.error);
      }
      var infos := ElementInfos(nodes, q.value);
      return Ok(infos);
    }

    /** `detect_file_type` on the current tree. */
    function FileType(): FileType
      reads this
      requires Valid()
    {
      DetectFileType(parser != NotLoaded, nodes)
    }
  }

  predicate IdsBelow(ids: seq<nat>, n: nat) {
    forall k :: 0 <= k < |ids| ==> ids[k] < n
  }

  /** The element matches all lie in the tree. */
  lemma ElementIdsIn(hits: seq<Hit>, n: nat)
    requires HitsIn(hits, n)
    ensures IdsBelow(ElementIds(hits), n)
  {
    var ids := ElementIds(hits);
    forall k | 0 <= k < |ids| ensures ids[k] < n {
      var j :| 0 <= j < |hits| && hits[j] == Elem(ids[k]);
    }
  }

  /** The descriptions of the given nodes, in order. */
  function Infos(nodes: seq<Node>, ids: seq<nat>): (r: seq<ElementInfo>)
    requires IdsBelow(ids, |nodes|)
    ensures |r| == |ids| && forall k :: 0 <= k < |ids| ==> r[k] == InfoOf(nodes[ids[k]])
  {
    seq(|ids|, k requires 0 <= k < |ids| => InfoOf(nodes[ids[k]]))
  }

  /** One more match adds its description when it is an element. */
  lemma InfosStep(nodes: seq<Node>, hits: seq<Hit>, k: nat)
    requires HitsIn(hits, |nodes|) && k < |hits|
    ensures IdsBelow(ElementIds(hits[..k]), |nodes|) && IdsBelow(ElementIds(hits[..k + 1]), |nodes|)
    ensures Infos(nodes, ElementIds(hits[..k + 1]))
      == Infos(nodes, ElementIds(hits[..k])) + (if hits[k].Elem? then [InfoOf(nodes[hits[k].id])] else [])
  {
    ElementIdsSnoc(hits[..k], hits[k]);
    assert hits[..k + 1] == hits[..k] + [hits[k]];
    assert HitsIn(hits[..k], |nodes|) && HitsIn(hits[..k + 1], |nodes|);
    ElementIdsIn(hits[..k], |nodes|);
    ElementIdsIn(hits[..k + 1], |nodes|);
  }

  /** The loop of `list_elements`: the description of each element match, in order. */
  method ElementInfos(nodes: seq<Node>, hits: seq<Hit>) returns (result: seq<ElementInfo>)
    requires HitsIn(hits, |nodes|)
    ensures IdsBelow(ElementIds(hits), |nodes|) && result == Infos(nodes, ElementIds(hits))
  {
    result := [];
    var k := 0;
    while k < |hits|
      invariant 0 <= k <= |hits|
      invariant IdsBelow(ElementIds(hits[..k]), |nodes|) && result == Infos(nodes, ElementIds(hits[..k]))
    {
      InfosStep(nodes, hits, k);
      if hits[k].Elem? {
        result := result + [InfoOf(nodes[hits[k].id])];
      }
      k := k + 1;
    }
    assert hits[..k] == hits;
  }

  /** The attribute a path ending in `/@xlink:href` or `/@href` names. */
  function PathAttribute(x: string): Option<string> {
    if EndsWith(x, "/@xlink:href") then Some("xlink:href")
    else if EndsWith(x, "/@href") then Some("href")
    else None
  }

  /** The owner-element path `extract_data_uri` re-queries for such a path: everything
      before its last `/`. */
  function ExtractOwner(x: string): (r: Option<string>)
    ensures r.Some? <==> PathAttribute(x).Some?
    ensures r.Some? ==> |r.value| < |x| && r.value == x[..|r.value|]
    ensures r.Some? ==> x[|r.value|] == '/' && '/' !in x[|r.value| + 1..]
  {
    if EndsWith(x, "/@xlink:href") || EndsWith(x, "/@href") then
      assert x[|x| - (if EndsWith(x, "/@xlink:href") then 12 else 6)] == '/';
      Some(BeforeLast(x, '/'))
    else None
  }

  /** One more match sets the attribute on it when it is an element. */
  lemma AttrSetStep(start: seq<Node>, hits: seq<Hit>, k: nat, key: string, v: string)
    requires HitsIn(hits, |start|) && k < |hits|
    ensures HitsIn(hits[..k], |start|) && HitsIn(hits[..k + 1], |start|)
    ensures AttrSet(start, hits[..k + 1], key, v)
      == if hits[k].Elem? then SetAttr(AttrSet(start, hits[..k], key, v), hits[k].id, key, v)
         else AttrSet(start, hits[..k], key, v)
    ensures |ElementIds(hits[..k + 1])| > 0 <==> |ElementIds(hits[..k])| > 0 || hits[k].Elem?
  {
    assert hits[..k + 1][..k] == hits[..k];
    ElementIdsSnoc(hits[..k], hits[k]);
    assert hits[..k + 1] == hits[..k] + [hits[k]];
  }

  /** The loop of `set_element_attribute` over the matches: each element match gets the
      attribute under its storage key, when the name has one. */
  method SetAttributeOnHits(start: seq<Node>, hits: seq<Hit>, reg: Registry, name: string, v: string)
    returns (nodes: seq<Node>, modified: bool)
    requires WellFormed(start) && HitsIn(hits, |start|)
    ensures WellFormed(nodes)
    ensures modified == (AttributeKey(reg, name).Some? && |ElementIds(hits)| > 0)
    ensures nodes == if AttributeKey(reg, name).Some? then AttrSet(start, hits, AttributeKey(reg, name).value, v) else start
  {
    // The storage key depends only on the name and the registry, neither of which the loop
    // changes; an unregistered prefix leaves every match untouched.
    var key := AttributeKey(reg, name);
    if key.None? {
      return start, false;
    }
    nodes := start;
    modified := false;
    var k := 0;
    while k < |hits|
      invariant 0 <= k <= |hits|
      invariant HitsIn(hits[..k], |start|)
      invariant modified == (|ElementIds(hits[..k])| > 0)
      invariant nodes == AttrSet(start, hits[..k], key.value, v)
      invariant WellFormed(nodes)
    {
      AttrSetStep(start, hits, k, key.value, v);
      if hits[k].Elem? {
        ContentEditKeepsShape(nodes, hits[k].id, "", key.value, v);
        nodes := SetAttr(nodes, hits[k].id, key.value, v);
        modified := true;
      }
      k := k + 1;
    }
    assert hits[..k] == hits;
  }

  lemma ElementIdsSnoc(hits: seq<Hit>, h: Hit)
    ensures ElementIds(hits + [h]) == ElementIds(hits) + (if h.Elem? then [h.id] else [])
  {
    if |hits| > 0 {
      assert (hits + [h])[1..] == hits[1..] + [h];
      ElementIdsSnoc(hits[1..], h);
    }
  }
}
