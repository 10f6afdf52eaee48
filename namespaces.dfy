/** The namespace registry of xsl/editor.py: a prefix-to-URI dictionary seeded with the four
    W3C namespaces and extended, in place and in order, by the prefixes a document declares. */
module Namespaces {
  import opened Wrappers
  import opened Tree

  const SvgUri := "http://www.w3.org/2000/svg"
  const XlinkUri := "http://www.w3.org/1999/xlink"
  const XhtmlUri := "http://www.w3.org/1999/xhtml"

  /** The registry every `FileEditor` starts with. */
  function Seed(): Registry {
    [("svg", SvgUri), ("xlink", XlinkUri), ("html", XhtmlUri), ("xhtml", XhtmlUri)]
  }

  /** The seed holds exactly the four W3C prefixes, in this order, each with its namespace;
      `html` and `xhtml` share the XHTML namespace. */
  lemma SeedSpec()
    ensures Distinct(Seed()) && Prefixes(Seed()) == ["svg", "xlink", "html", "xhtml"]
    ensures Lookup(Seed(), "svg") == Some(SvgUri) && Lookup(Seed(), "xlink") == Some(XlinkUri)
    ensures Lookup(Seed(), "html") == Some(XhtmlUri) && Lookup(Seed(), "xhtml") == Some(XhtmlUri)
  {
    var s := Seed();
    assert s[1..] == [("xlink", XlinkUri), ("html", XhtmlUri), ("xhtml", XhtmlUri)];
    assert s[1..][1..] == [("html", XhtmlUri), ("xhtml", XhtmlUri)];
    assert s[1..][1..][1..] == [("xhtml", XhtmlUri)];
  }

  function Prefixes(reg: Registry): (ps: seq<string>)
    ensures |ps| == |reg| && forall k :: 0 <= k < |reg| ==> ps[k] == reg[k].0
  {
    seq(|reg|, k requires 0 <= k < |reg| => reg[k].0)
  }

  /** No prefix occurs twice: the registry is a dictionary. */
  predicate Distinct(reg: Registry) {
    forall j, k :: 0 <= j < k < |reg| ==> reg[j].0 != reg[k].0
  }

  /** `reg.get(p)` */
  function Lookup(reg: Registry, p: string): (r: Option<string>)
    ensures r.Some? <==> p in Prefixes(reg)
  {
    if |reg| == 0 then None
    else if reg[0].0 == p then Some(reg[0].1)
    else Lookup(reg[1..], p)
  }

  /** `reg[p] = uri`: an existing entry keeps its place, a new one goes last. */
  function Put(reg: Registry, p: string, uri: string): Registry {
    if |reg| == 0 then [(p, uri)]
    else if reg[0].0 == p then [(p, uri)] + reg[1..]
    else [reg[0]] + Put(reg[1..], p, uri)
  }

  /** After `reg[p] = uri`, `p` maps to `uri` and every other prefix to what it did before. */
  lemma {:induction false} PutLookup(reg: Registry, p: string, uri: string, q: string)
    ensures Lookup(Put(reg, p, uri), q) == if q == p then Some(uri) else Lookup(reg, q)
    decreases |reg|
  {
    if |reg| > 0 && reg[0].0 != p {
      PutLookup(reg[1..], p, uri, q);
    }
  }

  lemma PrefixesCons(e: (string, string), rest: Registry)
    ensures Prefixes([e] + rest) == [e.0] + Prefixes(rest)
  {
  }

  /** The iteration order gains `p` at the end exactly when it was new. */
  lemma {:induction false} PutOrder(reg: Registry, p: string, uri: string)
    ensures Prefixes(Put(reg, p, uri)) == if p in Prefixes(reg) then Prefixes(reg) else Prefixes(reg) + [p]
    decreases |reg|
  {
    if |reg| > 0 {
      assert reg == [reg[0]] + reg[1..];
      PrefixesCons(reg[0], reg[1..]);
      if reg[0].0 != p {
        PutOrder(reg[1..], p, uri);
        PrefixesCons(reg[0], Put(reg[1..], p, uri));
      } else {
        PrefixesCons((p, uri), reg[1..]);
      }
    }
  }

  /** `reg[p] = uri` never duplicates a prefix. */
  lemma PutDistinct(reg: Registry, p: string, uri: string)
    requires Distinct(reg)
    ensures Distinct(Put(reg, p, uri))
  {
    PutOrder(reg, p, uri);
    var r := Put(reg, p, uri);
    forall j, k | 0 <= j < k < |r| ensures r[j].0 != r[k].0 {
      assert Prefixes(r)[j] == r[j].0 && Prefixes(r)[k] == r[k].0;
    }
  }

  /** A namespace declaration on the root: `(prefix, uri)`, prefix `None` for the default one. */
  type Decl = (Option<string>, string)

  /** The registry after the loop over `nsmap.items()`: each prefixed declaration, in order,
      written into the registry; the default namespace skipped. */
  function Absorb(reg: Registry, decls: seq<Decl>): Registry
    decreases |decls|
  {
    if |decls| == 0 then reg
    else
      var before := Absorb(reg, decls[..|decls| - 1]);
      var d := decls[|decls| - 1];
      if d.0.Some? then Put(before, d.0.value, d.1) else before
  }

  /** The URI the last declaration of prefix `q` gives it, if any. */
  function LastDecl(decls: seq<Decl>, q: string): Option<string>
    decreases |decls|
  {
    if |decls| == 0 then None
    else if decls[|decls| - 1].0 == Some(q) then Some(decls[|decls| - 1].1)
    else LastDecl(decls[..|decls| - 1], q)
  }

  /** After absorbing a document's declarations, a prefix the document declares maps to its
      (last) declared URI, overriding the seed; every other prefix keeps its entry; the
      registry stays a dictionary. */
  lemma {:induction false} AbsorbSpec(reg: Registry, decls: seq<Decl>, q: string)
    requires Distinct(reg)
    ensures Distinct(Absorb(reg, decls))
    ensures Lookup(Absorb(reg, decls), q) == if LastDecl(decls, q).Some? then LastDecl(decls, q) else Lookup(reg, q)
    decreases |decls|
  {
    if |decls| > 0 {
      var init := decls[..|decls| - 1];
      AbsorbSpec(reg, init, q);
      var d := decls[|decls| - 1];
      if d.0.Some? {
        PutLookup(Absorb(reg, init), d.0.value, d.1, q);
        PutDistinct(Absorb(reg, init), d.0.value, d.1);
      }
    }
  }

  /** Absorbing never drops or reorders a prefix: the old iteration order is a prefix of the new. */
  lemma {:induction false} AbsorbKeepsOrder(reg: Registry, decls: seq<Decl>)
    ensures Prefixes(reg) <= Prefixes(Absorb(reg, decls))
    decreases |decls|
  {
    if |decls| > 0 {
      var init := decls[..|decls| - 1];
      AbsorbKeepsOrder(reg, init);
      var d := decls[|decls| - 1];
      if d.0.Some? {
        PutOrder(Absorb(reg, init), d.0.value, d.1);
      }
    }
  }
}
