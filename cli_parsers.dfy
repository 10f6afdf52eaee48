/** The small parsers of xsl/cli.py: the `key=value,key=value` string of `add --attrs`, the
    `list --limit` cut-off with its trailer, and the 100-character previews of `list` and
    `extract`. */
module CliParsers {
  import opened Wrappers
  import opened Strings
  import opened Tree

  // ---------------------------------------------------------------------------------------
  // add --attrs

  /** The pair one fragment contributes: split at its first `=`, both sides stripped; a
      fragment without `=` contributes nothing. */
  function PairOf(fragment: string): Option<(string, string)> {
    if '=' in fragment then
      var (key, value) := SplitOnce(fragment, '=');
      Some((Strip(key), Strip(value)))
    else None
  }

  /** What each fragment contributes, fragment by fragment. */
  function PairsOf(fragments: seq<string>): (ops: seq<Option<(string, string)>>)
    ensures |ops| == |fragments| && forall i :: 0 <= i < |fragments| ==> ops[i] == PairOf(fragments[i])
  {
    seq(|fragments|, i requires 0 <= i < |fragments| => PairOf(fragments[i]))
  }

  /** The pairs actually contributed, in order. */
  function Present(ops: seq<Option<(string, string)>>): seq<(string, string)>
    decreases |ops|
  {
    if |ops| == 0 then []
    else
      var init := Present(ops[..|ops| - 1]);
      match ops[|ops| - 1]
      case None => init
      case Some(p) => init + [p]
  }

  /** The dictionary the `add` command builds from an `--attrs` string. */
  function AttrsOf(s: string): map<string, string> {
    Assigned(Present(PairsOf(Split(s, ','))))
  }

  /** The `--attrs` parser: each `,`-separated fragment holding a `=` sets its stripped key to
      its stripped value, later fragments overriding earlier ones; an absent or empty option
      gives no attributes. */
  method ParseAttrs(attrs: Option<string>) returns (attributes: map<string, string>)
    ensures attributes == AttrsOf(if attrs.Some? then attrs.value else "")
    ensures attrs.None? || attrs == Some("") ==> attributes == map[]
  {
    attributes := map[];
    if attrs.None? || attrs.value == "" {
      assert Split("", ',') == [""];
      assert PairsOf([""]) == [None];
      assert Present([None]) == Present([None][..0]);
      return;
    }
    var fragments := Split(attrs.value, ',');
    ghost var ops := PairsOf(fragments);
    var i := 0;
    while i < |fragments|
      invariant 0 <= i <= |fragments|
      invariant attributes == Assigned(Present(ops[..i]))
    {
      var pair := fragments[i];
      assert ops[..i + 1][..i] == ops[..i];
      AttrsSnoc(ops[..i + 1]);
      if '=' in pair {
        var (key, value) := SplitOnce(pair, '=');
        assert ops[i] == Some((Strip(key), Strip(value)));
        attributes := attributes[Strip(key) := Strip(value)];
      }
      i := i + 1;
    }
    assert ops[..i] == ops;
  }

  /** Adding a fragment's result either leaves the dictionary alone or sets its one pair. */
  lemma AttrsSnoc(ops: seq<Option<(string, string)>>)
    requires |ops| > 0
    ensures var n := |ops| - 1;
      Assigned(Present(ops)) ==
        if ops[n].Some? then Assigned(Present(ops[..n]))[ops[n].value.0 := ops[n].value.1]
        else Assigned(Present(ops[..n]))
  {
    var n := |ops| - 1;
    var before := Present(ops[..n]);
    if ops[n].Some? {
      assert Present(ops) == before + [ops[n].value];
      assert (before + [ops[n].value])[..|before|] == before;
    }
  }

  /** A key is set iff some fragment with a `=` has it as its stripped key. */
  lemma {:induction false} AttrsKeys(ops: seq<Option<(string, string)>>, k: string)
    ensures k in Assigned(Present(ops)) <==> exists i :: 0 <= i < |ops| && ops[i].Some? && ops[i].value.0 == k
    decreases |ops|
  {
    if |ops| > 0 {
      var n := |ops| - 1;
      var init := ops[..n];
      AttrsKeys(init, k);
      AttrsSnoc(ops);
      if exists i :: 0 <= i < |ops| && ops[i].Some? && ops[i].value.0 == k {
        var i :| 0 <= i < |ops| && ops[i].Some? && ops[i].value.0 == k;
        if i < n {
          assert init[i] == ops[i];
        }
      }
    }
  }

  /** A key that is set holds the stripped value of the last fragment naming it. */
  lemma {:induction false} AttrsLastWins(ops: seq<Option<(string, string)>>, k: string)
    requires k in Assigned(Present(ops))
    ensures exists i :: (0 <= i < |ops| && ops[i] == Some((k, Assigned(Present(ops))[k]))
      && (forall j :: i < j < |ops| && ops[j].Some? ==> ops[j].value.0 != k))
    decreases |ops|
  {
    var n := |ops| - 1;
    var init := ops[..n];
    var m := Assigned(Present(ops));
    AttrsSnoc(ops);
    if ops[n].Some? && ops[n].value.0 == k {
      assert ops[n] == Some((k, m[k]));
    } else {
      AttrsLastWins(init, k);
      var i :| 0 <= i < |init| && init[i] == Some((k, Assigned(Present(init))[k]))
        && (forall j :: i < j < |init| && init[j].Some? ==> init[j].value.0 != k);
      assert ops[i] == init[i];
      forall j | i < j < |ops| && ops[j].Some? ensures ops[j].value.0 != k {
        if j < n {
          assert ops[j] == init[j];
        }
      }
    }
  }

  /** The `key=value` fragment of one pair. */
  function Fragment(item: (string, string)): string {
    item.0 + "=" + item.1
  }

  /** The `--attrs` string that spells a list of pairs. */
  function Render(items: seq<(string, string)>): string {
    Join(seq(|items|, i requires 0 <= i < |items| => Fragment(items[i])), ',')
  }

  /** Pairs whose keys hold neither `,` nor `=`, whose values hold no `,`, and which carry no
      surrounding whitespace. */
  predicate Spellable(items: seq<(string, string)>) {
    forall i :: 0 <= i < |items| ==>
      && ',' !in items[i].0 && '=' !in items[i].0 && ',' !in items[i].1
      && Strip(items[i].0) == items[i].0 && Strip(items[i].1) == items[i].1
  }

  /** Parsing the spelling of spellable pairs gives back the dictionary they build: the
      parser inverts the `key=value,key=value` notation, and values may hold `=`. */
  lemma ParseRender(items: seq<(string, string)>)
    requires Spellable(items)
    ensures AttrsOf(Render(items)) == Assigned(items)
  {
    var parts := seq(|items|, i requires 0 <= i < |items| => Fragment(items[i]));
    if |items| == 0 {
      assert Render(items) == "";
      assert Split("", ',') == [""];
    } else {
      forall k | 0 <= k < |parts| ensures ',' !in parts[k] {
        assert parts[k] == items[k].0 + "=" + items[k].1;
      }
      SplitJoin(parts, ',');
      PairsOfFragments(items, parts);
    }
  }

  /** One spelled pair parses back to itself. */
  lemma PairOfFragment(item: (string, string))
    requires '=' !in item.0 && Strip(item.0) == item.0 && Strip(item.1) == item.1
    ensures PairOf(Fragment(item)) == Some(item)
  {
    assert Fragment(item) == item.0 + ['='] + item.1;
    SplitOnceAt(item.0, '=', item.1);
  }

  /** When every fragment contributes a pair, the pairs contributed are exactly those. */
  lemma {:induction false} PresentAll(ops: seq<Option<(string, string)>>, items: seq<(string, string)>)
    requires |ops| == |items| && forall i :: 0 <= i < |ops| ==> ops[i] == Some(items[i])
    ensures Present(ops) == items
    decreases |ops|
  {
    if |ops| > 0 {
      var n := |ops| - 1;
      PresentAll(ops[..n], items[..n]);
      assert items == items[..n] + [items[n]];
    }
  }

  lemma PairsOfFragments(items: seq<(string, string)>, parts: seq<string>)
    requires Spellable(items) && |parts| == |items|
    requires forall i :: 0 <= i < |items| ==> parts[i] == Fragment(items[i])
    ensures Present(PairsOf(parts)) == items
  {
    var ops := PairsOf(parts);
    forall i | 0 <= i < |ops| ensures ops[i] == Some(items[i]) {
      PairOfFragment(items[i]);
    }
    PresentAll(ops, items);
  }

  // ---------------------------------------------------------------------------------------
  // Previews

  const PreviewLength := 100

  /** `s[:100] + "..." if len(s) > 100 else s` */
  function Preview(s: string): string {
    if |s| > PreviewLength then s[..PreviewLength] + "..." else s
  }

  /** A preview is at most 103 characters, starts with the string's first (up to) 100
      characters, and previewing it again changes nothing. It leaves a string alone exactly
      when the string is short, or is itself a 100-character head followed by `...`. */
  lemma PreviewSpec(s: string)
    ensures |Preview(s)| <= PreviewLength + 3
    ensures var n := if |s| < PreviewLength then |s| else PreviewLength;
      |Preview(s)| >= n && Preview(s)[..n] == s[..n]
    ensures Preview(Preview(s)) == Preview(s)
    ensures Preview(s) == s <==> |s| <= PreviewLength || (|s| == PreviewLength + 3 && s[PreviewLength..] == "...")
  {
    if |s| > PreviewLength {
      var p := Preview(s);
      assert p[..PreviewLength] == s[..PreviewLength];
      assert p[PreviewLength..] == "...";
      if p == s {
        assert s[PreviewLength..] == "...";
      }
      if |s| == PreviewLength + 3 && s[PreviewLength..] == "..." {
        assert s == s[..PreviewLength] + s[PreviewLength..];
      }
    }
  }

  // ---------------------------------------------------------------------------------------
  // list --limit

  /** `len(a[:j])` for a list of `n` items and any integer `j`. */
  function SliceLength(n: nat, j: int): (k: nat)
    ensures k <= n
  {
    if j >= 0 then (if j < n then j else n)
    else if n + j > 0 then n + j else 0
  }

  /** What `list` prints for `total` matches: "No elements found", or the entries it shows
      and the count in its `... and N more` trailer when there is one. */
  datatype ListOutput = NothingFound | Shown(count: nat, more: Option<int>)

  function ListSummary(total: nat, limit: int): ListOutput {
    if total == 0 then NothingFound
    else Shown(SliceLength(total, limit), if total > limit then Some(total - limit) else None)
  }

  /** For a non-negative limit, the entries shown and the trailer's count add up to the
      matches, the trailer appears exactly when some are not shown, and no more than `limit`
      entries are shown. */
  lemma ListAccounting(total: nat, limit: int)
    requires limit >= 0 && total > 0
    ensures var out := ListSummary(total, limit);
      && out.count <= limit
      && (out.more.Some? <==> out.count < total)
      && out.count + (if out.more.Some? then out.more.value else 0) == total
  {
  }

  /** A negative limit slices from the end, but the trailer still counts `total - limit`:
      five matches with limit -2 show three entries and announce seven more. */
  lemma NegativeLimitMiscounts()
    ensures ListSummary(5, -2) == Shown(3, Some(7))
  {
  }

  /** The trailer counting the entries left unshown. */
  function CorrectedListSummary(total: nat, limit: int): ListOutput {
    if total == 0 then NothingFound
    else
      var count := SliceLength(total, limit);
      Shown(count, if count < total then Some(total - count) else None)
  }

  /** The corrected trailer accounts for every match whatever the limit, and agrees with
      `ListSummary` for every non-negative limit. */
  lemma CorrectedListAccounting(total: nat, limit: int)
    requires total > 0
    ensures var out := CorrectedListSummary(total, limit);
      && (out.more.Some? <==> out.count < total)
      && out.count + (if out.more.Some? then out.more.value else 0) == total
    ensures limit >= 0 ==> CorrectedListSummary(total, limit) == ListSummary(total, limit)
  {
  }
}
