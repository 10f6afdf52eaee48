/** The element tree both editors work on: a sequence of nodes, node 0 the root, every parent
    before its children. A node's children are the nodes whose parent is that node, in id
    order, so a node appended to the sequence is its parent's new last child (ids then follow
    document order only among siblings, not across the whole tree). Detaching a
    node clears its parent link; the node stays in the sequence but is no longer in the tree. */
module Tree {
  import opened Wrappers
  import opened Strings

  datatype Node = Node(tag: string, text: Option<string>, attrs: map<string, string>, parent: Option<nat>)

  /** One item of an XPath result: an element, or a string (an attribute value or text node),
      which has no `text`, `get`, `set` or `attrib`. */
  datatype Hit = Elem(id: nat) | Str(value: string)

  /** A prefix-to-URI registry in insertion order, as a Python dict iterates. */
  type Registry = seq<(string, string)>

  /** An XPath engine: evaluates an expression on a tree under a namespace registry, giving
      the matches in document order, or the message of the exception it raises. */
  type Evaluator = (seq<Node>, Registry, string) -> Result<seq<Hit>, string>

  predicate WellFormed(nodes: seq<Node>) {
    && |nodes| > 0
    && nodes[0].parent.None?
    && forall i :: 0 <= i < |nodes| && nodes[i].parent.Some? ==> nodes[i].parent.value < i
  }

  predicate HitsIn(hits: seq<Hit>, n: nat) {
    forall k :: 0 <= k < |hits| && hits[k].Elem? ==> hits[k].id < n
  }

  /** An evaluator that only ever reports ids within the node sequence it was given. */
  ghost predicate Sound(e: Evaluator) {
    forall t, r, x :: e(t, r, x).Ok? ==> HitsIn(e(t, r, x).value, |t|)
  }

  /** `a` is a proper ancestor of `i`. */
  predicate Below(nodes: seq<Node>, i: nat, a: nat)
    decreases i
  {
    i < |nodes| && nodes[i].parent.Some?
    && var p := nodes[i].parent.value;
       p == a || (p < i && Below(nodes, p, a))
  }

  /** The root has at least one child: the truth value of an lxml or ElementTree element. */
  predicate HasChildren(nodes: seq<Node>) {
    exists i :: 0 < i < |nodes| && nodes[i].parent == Some(0)
  }

  /** The ids of the element hits, in order. */
  function ElementIds(hits: seq<Hit>): (ids: seq<nat>)
    ensures |ids| <= |hits|
    ensures forall k :: 0 <= k < |ids| ==> Elem(ids[k]) in hits
    ensures forall k :: 0 <= k < |hits| && hits[k].Elem? ==> hits[k].id in ids
  {
    if |hits| == 0 then []
    else if hits[0].Elem? then [hits[0].id] + ElementIds(hits[1..])
    else ElementIds(hits[1..])
  }

  /** `elem.text = t` */
  function SetText(nodes: seq<Node>, id: nat, t: string): (r: seq<Node>)
    requires id < |nodes|
    ensures |r| == |nodes|
  {
    nodes[id := nodes[id].(text := Some(t))]
  }

  /** `elem.set(key, v)` */
  function SetAttr(nodes: seq<Node>, id: nat, key: string, v: string): (r: seq<Node>)
    requires id < |nodes|
    ensures |r| == |nodes|
  {
    nodes[id := nodes[id].(attrs := nodes[id].attrs[key := v])]
  }

  /** Changing text or attributes keeps the shape of the tree. */
  lemma ContentEditKeepsShape(nodes: seq<Node>, id: nat, t: string, key: string, v: string)
    requires WellFormed(nodes) && id < |nodes|
    ensures WellFormed(SetText(nodes, id, t)) && WellFormed(SetAttr(nodes, id, key, v))
    ensures forall i :: 0 <= i < |nodes| ==>
      SetText(nodes, id, t)[i].parent == nodes[i].parent && SetAttr(nodes, id, key, v)[i].parent == nodes[i].parent
  {
  }

  /** `etree.SubElement(parent, tag)` with its text and attributes. */
  function AppendChild(nodes: seq<Node>, p: nat, tag: string, text: Option<string>, attrs: map<string, string>): (r: seq<Node>)
    requires p < |nodes|
    ensures |r| == |nodes| + 1 && r[..|nodes|] == nodes
    ensures r[|nodes|] == Node(tag, text, attrs, Some(p))
  {
    nodes + [Node(tag, text, attrs, Some(p))]
  }

  /** The appended node is the parent's last child, and the tree stays well formed. */
  lemma AppendChildIsLast(nodes: seq<Node>, p: nat, tag: string, text: Option<string>, attrs: map<string, string>)
    requires WellFormed(nodes) && p < |nodes|
    ensures var r := AppendChild(nodes, p, tag, text, attrs);
      WellFormed(r) && Below(r, |nodes|, p)
      && forall i :: 0 <= i < |r| && r[i].parent == Some(p) ==> i <= |nodes|
  {
  }

  /** `parent.remove(elem)`: the node loses its parent link. */
  function Detach(nodes: seq<Node>, id: nat): (r: seq<Node>)
    requires id < |nodes|
    ensures |r| == |nodes| && r[id].parent.None?
  {
    nodes[id := nodes[id].(parent := None)]
  }

  /** Detaching a node other than the root removes exactly its subtree from the tree: a node
      stays under the root iff it was under it before and is neither the detached node nor
      one of its descendants. */
  lemma {:induction false} DetachRemovesSubtree(nodes: seq<Node>, id: nat, j: nat)
    requires WellFormed(nodes) && 0 < id < |nodes|
    ensures WellFormed(Detach(nodes, id))
    ensures Below(Detach(nodes, id), j, 0) <==> Below(nodes, j, 0) && j != id && !Below(nodes, j, id)
    decreases j
  {
    var r := Detach(nodes, id);
    if j < |nodes| && j != id && nodes[j].parent.Some? {
      var p := nodes[j].parent.value;
      if p != 0 {
        DetachRemovesSubtree(nodes, id, p);
      }
    }
  }

  /** The attribute map left by `d[k] = v` for each pair in turn, starting from no attributes:
      what `elem.set(k, v)` over a dict's items does to a new element, and what a parsed
      `key=value` list builds. */
  function Assigned(items: seq<(string, string)>): map<string, string>
    decreases |items|
  {
    if |items| == 0 then map[]
    else Assigned(items[..|items| - 1])[items[|items| - 1].0 := items[|items| - 1].1]
  }

  /** A key is present iff some pair names it, and it holds the value of the last such pair. */
  lemma AssignedSpec(items: seq<(string, string)>, k: string)
    ensures k in Assigned(items) <==> exists j :: 0 <= j < |items| && items[j].0 == k
    ensures k in Assigned(items) ==>
      exists j :: 0 <= j < |items| && items[j] == (k, Assigned(items)[k])
                  && forall i :: j < i < |items| ==> items[i].0 != k
  {
    AssignedKeys(items, k);
    AssignedLast(items, k);
  }

  lemma {:induction false} AssignedKeys(items: seq<(string, string)>, k: string)
    ensures k in Assigned(items) <==> exists j :: 0 <= j < |items| && items[j].0 == k
    decreases |items|
  {
    if |items| > 0 {
      var n := |items| - 1;
      var init := items[..n];
      AssignedKeys(init, k);
      if items[n].0 != k && exists j :: 0 <= j < |items| && items[j].0 == k {
        var j :| 0 <= j < |items| && items[j].0 == k;
        assert init[j].0 == k;
      }
    }
  }

  lemma {:induction false} AssignedLast(items: seq<(string, string)>, k: string)
    ensures k in Assigned(items) ==>
      exists j :: 0 <= j < |items| && items[j] == (k, Assigned(items)[k])
                  && forall i :: j < i < |items| ==> items[i].0 != k
    decreases |items|
  {
    if |items| > 0 {
      var n := |items| - 1;
      var init := items[..n];
      AssignedLast(init, k);
      if items[n].0 != k {
        if k in Assigned(init) {
          var j :| 0 <= j < |init| && init[j] == (k, Assigned(init)[k])
                   && forall i :: j < i < |init| ==> init[i].0 != k;
          assert items[j] == init[j];
        }
      } else {
        assert items[n] == (k, Assigned(items)[k]);
      }
    }
  }
}
