/**
 * The toolkit's operations on live nodes (src/support/parse5-utils.ts).
 * Each mutation rewrites `childNodes` and `parentNode` fields in place and
 * is proved to take the snapshot of a node set `ns` to the snapshot
 * function of the same name; the walks and queries read the fields
 * directly and are proved to agree with the snapshot walk.
 */
module Parse5Utils {
  import opened Wrappers
  import opened Parse5Tree
  import opened Parse5Mutations
  import opened Parse5SaveChildren
  import opened Parse5FakeRoots

  // ---- Snapshots of the heap ----

  /** The child lists of the nodes of `ns`, as they are now. */
  ghost function Kids(ns: set<Node>): (m: map<Node, seq<Node>>)
    reads ns`childNodes
    ensures m.Keys == ns
  {
    map n | n in ns :: n.childNodes
  }

  /** The `parentNode` fields of the nodes of `ns`, as they are now. */
  ghost function Parents(ns: set<Node>): (m: map<Node, Node?>)
    reads ns`parentNode
    ensures m.Keys == ns
  {
    map n | n in ns :: n.parentNode
  }

  ghost function Snap(ns: set<Node>): (t: Tree)
    reads ns`childNodes, ns`parentNode
    ensures t.kids.Keys == ns && t.parent.Keys == ns
  {
    Tree(Kids(ns), Parents(ns))
  }

  /** After a write to one node's `childNodes`, the snapshot differs from the earlier one `before` in that entry only. */
  lemma KidsAfterWrite(ns: set<Node>, before: map<Node, seq<Node>>, p: Node)
    requires p in ns && before.Keys == ns
    requires forall n | n in ns && n != p :: n.childNodes == before[n]
    ensures Kids(ns) == before[p := p.childNodes]
  {
  }

  /** After a write to one node's `parentNode`, the snapshot differs from the earlier one `before` in that entry only. */
  lemma ParentsAfterWrite(ns: set<Node>, before: map<Node, Node?>, p: Node)
    requires p in ns && before.Keys == ns
    requires forall n | n in ns && n != p :: n.parentNode == before[n]
    ensures Parents(ns) == before[p := p.parentNode]
  {
  }

  /** Children of nodes of `ns` are nodes of `ns` of smaller height. */
  ghost predicate HeapRanked(ns: set<Node>)
    reads ns`childNodes
  {
    forall n, c | n in ns && c in n.childNodes :: c in ns && c.height < n.height
  }

  lemma HeapRankedSnap(ns: set<Node>)
    requires HeapRanked(ns)
    ensures Ranked(Snap(ns))
  {
  }

  // ---- Walks ----

  /** `depthFirst` with the default `childNodes` accessor. */
  function DepthFirst(ghost ns: set<Node>, n: Node): (r: seq<Node>)
    reads ns
    requires n in ns && HeapRanked(ns)
    ensures Ranked(Snap(ns)) && r == PreOrder(Snap(ns), n)
    decreases n.height, 1
  {
    [n] + (if IsParent(n) then DepthFirstList(ns, n.childNodes, n.height) else [])
  }

  function DepthFirstList(ghost ns: set<Node>, cs: seq<Node>, ghost bound: nat): (r: seq<Node>)
    reads ns
    requires HeapRanked(ns) && forall c | c in cs :: c in ns && c.height < bound
    ensures Ranked(Snap(ns)) && r == PreOrderList(Snap(ns), cs, bound)
    decreases bound, 0, |cs|
  {
    if cs == [] then [] else DepthFirst(ns, cs[0]) + DepthFirstList(ns, cs[1..], bound)
  }

  /** The items of `items` that satisfy `pred`, in order. */
  function Keep(items: seq<Node>, pred: Node -> bool): (r: seq<Node>)
  {
    if items == [] then [] else (if pred(items[0]) then [items[0]] else []) + Keep(items[1..], pred)
  }

  /** Exactly the items satisfying the predicate are kept. */
  lemma {:induction false} KeepMembers(items: seq<Node>, pred: Node -> bool, x: Node)
    ensures x in Keep(items, pred) <==> x in items && pred(x)
  {
    if items != [] {
      KeepMembers(items[1..], pred, x);
      assert items == [items[0]] + items[1..];
    }
  }

  /** Keeping distributes over concatenation, so order is kept. */
  lemma {:induction false} KeepAppend(a: seq<Node>, b: seq<Node>, pred: Node -> bool)
    ensures Keep(a + b, pred) == Keep(a, pred) + Keep(b, pred)
  {
    if a == [] {
      assert a + b == b;
    } else {
      var head := if pred(a[0]) then [a[0]] else [];
      calc {
        Keep(a + b, pred);
        { assert (a + b)[0] == a[0]; }
        head + Keep((a + b)[1..], pred);
        { assert (a + b)[1..] == a[1..] + b; }
        head + Keep(a[1..] + b, pred);
        { KeepAppend(a[1..], b, pred); }
        head + (Keep(a[1..], pred) + Keep(b, pred));
        Keep(a, pred) + Keep(b, pred);
      }
    }
  }

  /** `filter`: push every item satisfying `pred` onto `matches`, and return it. */
  method Filter(items: seq<Node>, pred: Node -> bool, matches: seq<Node>) returns (r: seq<Node>)
    ensures r == matches + Keep(items, pred)
  {
    r := matches;
    for i := 0 to |items|
      invariant r == matches + Keep(items[..i], pred)
    {
      KeepAppend(items[..i], [items[i]], pred);
      assert items[..i + 1] == items[..i] + [items[i]];
      if pred(items[i]) {
        r := r + [items[i]];
      }
    }
    assert items[..|items|] == items;
  }

  /** `nodeWalkAll`: the matches of the walk from `node`, after those already in `matches`. */
  method NodeWalkAll(ghost ns: set<Node>, node: Node, pred: Node -> bool, matches: seq<Node>) returns (r: seq<Node>)
    requires node in ns && HeapRanked(ns)
    ensures Ranked(Snap(ns)) && r == matches + Keep(PreOrder(Snap(ns), node), pred)
  {
    r := Filter(DepthFirst(ns, node), pred, matches);
  }

  // ---- Attributes ----

  /** `attrs.find(({name: attrName}) => attrName === name)`, as a position. */
  function FindAttr(attrs: seq<Attr>, name: string): (r: Option<nat>)
    ensures r.Some? ==> r.value < |attrs| && attrs[r.value].name == name
                        && forall j | 0 <= j < r.value :: attrs[j].name != name
    ensures r.None? ==> forall j | 0 <= j < |attrs| :: attrs[j].name != name
  {
    if attrs == [] then None
    else if attrs[0].name == name then Some(0)
    else match FindAttr(attrs[1..], name)
      case None => None
      case Some(i) => Some(i + 1)
  }

  /** `getAttr`: the value of the first attribute named `name` of an element, else the empty string. */
  function GetAttr(n: Node, name: string): (r: string)
    reads n`attrs
  {
    if !IsElement(n) then ""
    else match FindAttr(n.attrs, name)
      case Some(i) => n.attrs[i].value
      case None => ""
  }

  /**
   * `setAttr`: on an element, the first attribute named `name` takes the new
   * value, or a new attribute is appended; any other node is left alone.
   */
  method SetAttr(n: Node, name: string, value: string)
    modifies n
    ensures IsElement(n) ==> GetAttr(n, name) == value
    ensures forall other | other != name :: GetAttr(n, other) == old(GetAttr(n, other))
    ensures IsElement(n) && FindAttr(old(n.attrs), name).Some? ==>
              n.attrs == old(n.attrs)[FindAttr(old(n.attrs), name).value := Attr(name, value)]
    ensures IsElement(n) && FindAttr(old(n.attrs), name).None? ==> n.attrs == old(n.attrs) + [Attr(name, value)]
    ensures !IsElement(n) ==> n.attrs == old(n.attrs)
    ensures n.childNodes == old(n.childNodes) && n.parentNode == old(n.parentNode)
    ensures n.value == old(n.value) && n.data == old(n.data)
  {
    if !IsElement(n) {
      return;
    }
    match FindAttr(n.attrs, name)
    case Some(i) =>
      n.attrs := n.attrs[i := Attr(name, value)];
      FindAttrUpdated(old(n.attrs), name, value, i);
    case None =>
      n.attrs := n.attrs + [Attr(name, value)];
      FindAttrAppended(old(n.attrs), name, value);
  }

  /** After the first match takes a new value, lookups of every name agree with the update. */
  lemma FindAttrUpdated(attrs: seq<Attr>, name: string, value: string, i: nat)
    requires FindAttr(attrs, name) == Some(i)
    ensures FindAttr(attrs[i := Attr(name, value)], name) == Some(i)
    ensures forall other | other != name :: FindAttr(attrs[i := Attr(name, value)], other) == FindAttr(attrs, other)
  {
    var a := attrs[i := Attr(name, value)];
    forall other | other != name
      ensures FindAttr(a, other) == FindAttr(attrs, other)
    {
      FindAttrSame(attrs, a, other);
    }
    FindAttrFirst(a, name, i);
  }

  lemma FindAttrAppended(attrs: seq<Attr>, name: string, value: string)
    requires FindAttr(attrs, name) == None
    ensures FindAttr(attrs + [Attr(name, value)], name) == Some(|attrs|)
    ensures forall other | other != name :: FindAttr(attrs + [Attr(name, value)], other) == FindAttr(attrs, other)
  {
    var a := attrs + [Attr(name, value)];
    forall other | other != name
      ensures FindAttr(a, other) == FindAttr(attrs, other)
    {
      FindAttrSame(attrs, a, other);
    }
    FindAttrFirst(a, name, |attrs|);
  }

  /** `find` answers by the first match, so lists that agree on who bears `name` give the same answer. */
  lemma FindAttrSame(a: seq<Attr>, b: seq<Attr>, name: string)
    requires FindAttr(a, name).Some? ==> FindAttr(a, name).value < |b|
    requires forall j | 0 <= j < |a| && j < |b| :: a[j].name == name <==> b[j].name == name
    requires FindAttr(a, name).None? ==> forall j | |a| <= j < |b| :: b[j].name != name
    ensures FindAttr(b, name) == FindAttr(a, name)
  {
    match FindAttr(a, name)
    case Some(i) => FindAttrFirst(b, name, i);
    case None =>
  }

  lemma FindAttrFirst(a: seq<Attr>, name: string, i: nat)
    requires i < |a| && a[i].name == name && forall j | 0 <= j < i :: a[j].name != name
    ensures FindAttr(a, name) == Some(i)
  {
    match FindAttr(a, name)
    case Some(k) =>
    case None =>
  }

  // ---- Text ----

  /** The `value`s of the text nodes of `nodes`, joined. */
  function JoinValues(ghost ns: set<Node>, nodes: seq<Node>): (r: string)
    reads ns
    requires forall x | x in nodes :: x in ns
  {
    if nodes == [] then "" else nodes[0].value + JoinValues(ns, nodes[1..])
  }

  /**
   * `getTextContent`: a comment's `data`, a text node's `value`, and for any
   * other node the values of the text nodes of its walk, in walk order.
   */
  function GetTextContent(ghost ns: set<Node>, n: Node): (r: string)
    reads ns
    requires n in ns && HeapRanked(ns)
  {
    if IsCommentNode(n) then n.data
    else if IsTextNode(n) then n.value
    else
      var walk := DepthFirst(ns, n);
      PreOrderInside(Snap(ns), n);
      KeepInside(walk, IsTextNode, ns);
      JoinValues(ns, Keep(walk, IsTextNode))
  }

  /** The `value` fields of the nodes of `ns`, as they are now. */
  ghost function Values(ns: set<Node>): (m: map<Node, string>)
    reads ns`value
    ensures m.Keys == ns
  {
    map n | n in ns :: n.value
  }

  /** `JoinValues` over a map of values. */
  function JoinVals(vals: map<Node, string>, nodes: seq<Node>): string
  {
    if nodes == [] then "" else (if nodes[0] in vals then vals[nodes[0]] else "") + JoinVals(vals, nodes[1..])
  }

  /** The text content of a node that is neither a comment nor a text node, read off a snapshot and its values. */
  function WalkText(t: Tree, vals: map<Node, string>, n: Node): string
    requires Ranked(t)
  {
    JoinVals(vals, Keep(PreOrder(t, n), IsTextNode))
  }

  lemma {:induction false} JoinValuesIs(ns: set<Node>, nodes: seq<Node>)
    requires forall x | x in nodes :: x in ns
    ensures JoinValues(ns, nodes) == JoinVals(Values(ns), nodes)
  {
    if nodes != [] {
      JoinValuesIs(ns, nodes[1..]);
    }
  }

  /** `getTextContent` of an element, a document or a fragment is its `WalkText` in the current heap. */
  lemma TextContentIs(ns: set<Node>, n: Node)
    requires n in ns && HeapRanked(ns) && !IsCommentNode(n) && !IsTextNode(n)
    ensures Ranked(Snap(ns)) && GetTextContent(ns, n) == WalkText(Snap(ns), Values(ns), n)
  {
    var walk := DepthFirst(ns, n);
    PreOrderInside(Snap(ns), n);
    KeepInside(walk, IsTextNode, ns);
    JoinValuesIs(ns, Keep(walk, IsTextNode));
  }

  lemma {:induction false} JoinValsFramed(vals: map<Node, string>, vals': map<Node, string>, nodes: seq<Node>)
    requires forall y | y in nodes :: (y in vals <==> y in vals') && (y in vals ==> vals'[y] == vals[y])
    ensures JoinVals(vals', nodes) == JoinVals(vals, nodes)
  {
    if nodes != [] {
      JoinValsFramed(vals, vals', nodes[1..]);
    }
  }

  /**
   * The text content read off two snapshots agrees when they give the same
   * children to the parents met on the walk and the same values to the
   * nodes met.
   */
  lemma WalkTextFramed(t: Tree, t': Tree, vals: map<Node, string>, vals': map<Node, string>, n: Node)
    requires Ranked(t) && Ranked(t') && SameBelow(t, t', PreOrder(t, n))
    requires forall y | y in PreOrder(t, n) :: (y in vals <==> y in vals') && (y in vals ==> vals'[y] == vals[y])
    ensures WalkText(t', vals', n) == WalkText(t, vals, n)
  {
    var walk := PreOrder(t, n);
    PreOrderFramed(t, t', n);
    forall y | y in Keep(walk, IsTextNode)
      ensures y in walk
    {
      KeepMembers(walk, IsTextNode, y);
    }
    JoinValsFramed(vals, vals', Keep(walk, IsTextNode));
  }

  lemma KeepInside(items: seq<Node>, pred: Node -> bool, ns: set<Node>)
    requires forall x | x in items :: x in ns
    ensures forall x | x in Keep(items, pred) :: x in ns
  {
    forall x | x in Keep(items, pred)
      ensures x in ns
    {
      KeepMembers(items, pred, x);
    }
  }

  /**
   * `newTextNode`: a fresh text node pointing at `parentNode` becomes that
   * node's only child. The children it replaces keep their `parentNode` fields.
   */
  method NewTextNode(ghost ns: set<Node>, value: string, parentNode: Node) returns (textNode: Node)
    requires parentNode in ns
    modifies parentNode`childNodes
    ensures fresh(textNode) && IsTextNode(textNode) && textNode.value == value
    ensures textNode.parentNode == parentNode && textNode.childNodes == [] && textNode.height == 0
    ensures parentNode.childNodes == [textNode]
    ensures Snap(ns + {textNode}).kids == old(Snap(ns)).kids[parentNode := [textNode]][textNode := []]
    ensures Snap(ns + {textNode}).parent == old(Snap(ns)).parent[textNode := parentNode]
    ensures old(HeapRanked(ns)) && parentNode.height > 0 ==> HeapRanked(ns + {textNode})
  {
    textNode := new Node.Text(value, parentNode);
    parentNode.childNodes := [textNode];
  }

  /**
   * `setTextContent`: a comment's `data` or a text node's `value` is
   * overwritten; a parent kind gets a single fresh text node as its whole
   * child list; other nodes are left alone. Either way `getTextContent`
   * then gives back `value`.
   */
  method SetTextContent(ghost ns: set<Node>, node: Node, value: string) returns (ghost ns': set<Node>)
    requires node in ns && HeapRanked(ns) && (IsParent(node) ==> node.height > 0)
    modifies node`data, node`value, node`childNodes
    ensures ns <= ns' && node in ns' && HeapRanked(ns')
    ensures IsCommentNode(node) || IsTextNode(node) || IsParent(node) ==> GetTextContent(ns', node) == value
    ensures IsCommentNode(node) ==> node.data == value && Snap(ns') == old(Snap(ns)) && ns' == ns
    ensures IsTextNode(node) ==> node.value == value && Snap(ns') == old(Snap(ns)) && ns' == ns
    ensures IsParent(node) ==> exists tn: Node :: tn !in ns && fresh(tn) && IsTextNode(tn) && ns' == ns + {tn}
                                  && Snap(ns').kids == old(Snap(ns)).kids[node := [tn]][tn := []]
                                  && Snap(ns').parent == old(Snap(ns)).parent[tn := node]
    ensures !IsCommentNode(node) && !IsTextNode(node) && !IsParent(node) ==> ns' == ns && Snap(ns') == old(Snap(ns))
    ensures forall n | n in ns && n != node :: n.attrs == old(n.attrs) && n.value == old(n.value) && n.data == old(n.data)
    ensures node.attrs == old(node.attrs)
  {
    ns' := ns;
    KindsOverlapInElementsOnly(node);
    if IsCommentNode(node) {
      node.data := value;
    } else if IsTextNode(node) {
      node.value := value;
    } else if IsParent(node) {
      var tn := NewTextNode(ns, value, node);
      ns' := ns + {tn};
      TextOnlyChild(ns', node, tn);
    }
  }

  /** A parent whose one child is a childless text node has that node's value as its text. */
  lemma TextOnlyChild(ns: set<Node>, node: Node, tn: Node)
    requires node in ns && tn in ns && HeapRanked(ns)
    requires IsParent(node) && !IsCommentNode(node) && !IsTextNode(node)
    requires IsTextNode(tn) && node.childNodes == [tn] && tn.childNodes == []
    ensures GetTextContent(ns, node) == tn.value
  {
    assert DepthFirst(ns, tn) == [tn];
    assert DepthFirstList(ns, [tn], node.height) == [tn];
    assert DepthFirst(ns, node) == [node, tn];
    assert Keep([tn], IsTextNode) == [tn];
    assert Keep([node, tn], IsTextNode) == [tn] by {
      assert [node, tn][1..] == [tn];
    }
    assert JoinValues(ns, [tn]) == tn.value;
  }

  // ---- Mutations ----

  /** `removeNode`. */
  method RemoveNode(ghost ns: set<Node>, node: Node)
    requires node in ns && Closed(Snap(ns))
    modifies ns`childNodes, ns`parentNode
    ensures Snap(ns) == RemoveNodeT(old(Snap(ns)), node)
  {
    ghost var t := Snap(ns);
    if IsChild(node) {
      var parent := node.parentNode;
      if parent != null {
        var idx := IndexOf(parent.childNodes, node);
        parent.childNodes := Splice(parent.childNodes, idx, 1, []);
        KidsAfterWrite(ns, t.kids, parent);
      }
    }
    node.parentNode := null;
    ParentsAfterWrite(ns, t.parent, node);
  }

  /** `insertNode`. */
  method InsertNode(ghost ns: set<Node>, parent: Node, index: int, newNode: Node, replace: bool)
    requires parent in ns && newNode in ns && Closed(Snap(ns))
    modifies ns`childNodes, ns`parentNode
    ensures Snap(ns) == InsertNodeT(old(Snap(ns)), parent, index, newNode, replace)
  {
    if !IsParent(parent) {
      return;
    }
    ghost var t := Snap(ns);
    var newNodes: seq<Node> := [];
    var removedNode := if replace then Get(parent.childNodes, index) else null;
    if IsDocumentFragment(newNode) {
      newNodes := newNode.childNodes;
      newNode.childNodes := [];
      KidsAfterWrite(ns, t.kids, newNode);
    } else {
      newNodes := [newNode];
      RemoveNodeClosed(t, newNode);
      RemoveNode(ns, newNode);
    }
    ghost var t1 := Snap(ns);
    InsertNodeStages(t, parent, index, newNode, replace, t1, newNodes);
    assert Closed(t1);
    SpliceIn(ns, parent, index, newNodes, replace);
  }

  /**
   * The second half of `insertNode`: re-read the entry to replace, splice
   * the new nodes in, reparent them, and detach the replaced entry.
   */
  method SpliceIn(ghost ns: set<Node>, parent: Node, index: int, newNodes: seq<Node>, replace: bool)
    requires parent in ns && (forall x | x in newNodes :: x in ns) && forall c | c in parent.childNodes :: c in ns
    modifies ns`childNodes, ns`parentNode
    ensures Kids(ns) == old(Kids(ns))[parent := Splice(old(parent.childNodes), index, if replace then 1 else 0, newNodes)]
    ensures var removed := if replace then Get(old(parent.childNodes), index) else null;
            var ps := SetParents(old(Parents(ns)), newNodes, parent);
            Parents(ns) == if removed != null && IsChild(removed) && removed in ps then ps[removed := null] else ps
  {
    var removedNode: Node? := null;
    if replace {
      removedNode := Get(parent.childNodes, index);
    }
    ghost var before, p0 := Kids(ns), Parents(ns);
    parent.childNodes := Splice(parent.childNodes, index, if replace then 1 else 0, newNodes);
    KidsAfterWrite(ns, before, parent);
    assert Parents(ns) == p0;
    Reparent(ns, newNodes, parent);
    ghost var ps := Parents(ns);
    assert ps == SetParents(p0, newNodes, parent);
    if removedNode != null && IsChild(removedNode) {
      assert removedNode in ps by {
        assert removedNode in before[parent];
      }
      removedNode.parentNode := null;
      ParentsAfterWrite(ns, ps, removedNode);
    }
  }

  /** The `forEach` of `insertNode`: every child-kind node of `nodes` points at `parent`. */
  method Reparent(ghost ns: set<Node>, nodes: seq<Node>, parent: Node)
    requires forall x | x in nodes :: x in ns
    modifies ns`parentNode
    ensures Parents(ns) == SetParents(old(Parents(ns)), nodes, parent)
    ensures Kids(ns) == old(Kids(ns))
  {
    ghost var m := Parents(ns);
    for i := 0 to |nodes|
      invariant Parents(ns) == SetParents(m, nodes[..i], parent)
    {
      SetParentsSnoc(m, nodes[..i], nodes[i], parent);
      TakeOneMore(nodes, i);
      ghost var before := Parents(ns);
      if IsChild(nodes[i]) {
        nodes[i].parentNode := parent;
        ParentsAfterWrite(ns, before, nodes[i]);
      }
    }
    assert nodes[..|nodes|] == nodes;
  }

  /** `insertBefore`: `insertNode` at the position of `oldNode` in the parent's list. */
  method InsertBefore(ghost ns: set<Node>, parent: Node, oldNode: Node, newNode: Node)
    requires parent in ns && newNode in ns && Closed(Snap(ns))
    modifies ns`childNodes, ns`parentNode
    ensures Snap(ns) == InsertBeforeT(old(Snap(ns)), parent, oldNode, newNode)
  {
    if !IsParent(parent) {
      return;
    }
    var index := IndexOf(parent.childNodes, oldNode);
    InsertNode(ns, parent, index, newNode, false);
  }

  /**
   * `removeNodeSaveChildren`; on an attached child-kind node of a
   * well-formed snapshot its outcome is the splice `SaveChildrenT` describes.
   */
  method RemoveNodeSaveChildren(ghost ns: set<Node>, node: Node)
    requires node in ns && Closed(Snap(ns))
    modifies ns`childNodes, ns`parentNode
    ensures Snap(ns) == RemoveNodeSaveChildrenT(old(Snap(ns)), node)
    ensures Closed(Snap(ns))
    ensures WellFormed(old(Snap(ns))) && Attached(old(Snap(ns)), node) && IsChild(node) ==>
              Snap(ns) == SaveChildrenT(old(Snap(ns)), node)
  {
    ghost var t0 := Snap(ns);
    RemoveNodeSaveChildrenClosed(t0, node);
    RemoveNodeSaveChildrenMeaning(t0, node);
    if !IsChild(node) {
      return;
    }
    var fosterParent := node.parentNode;
    if fosterParent == null {
      return;
    }
    if IsParent(node) {
      var children := node.childNodes;
      InsertEachBeforeNode(ns, fosterParent, node, children);
    }
    RemoveNode(ns, node);
  }

  /** The loop of `removeNodeSaveChildren`: `insertBefore(fosterParent, node, child)` for each child of the copy. */
  method InsertEachBeforeNode(ghost ns: set<Node>, fosterParent: Node, node: Node, children: seq<Node>)
    requires fosterParent in ns && Closed(Snap(ns)) && forall c | c in children :: c in ns
    modifies ns`childNodes, ns`parentNode
    ensures Closed(Snap(ns))
    ensures Snap(ns) == InsertEachBefore(old(Snap(ns)), fosterParent, node, children)
  {
    ghost var t0 := Snap(ns);
    for j := 0 to |children|
      invariant Closed(Snap(ns))
      invariant Snap(ns) == InsertEachBefore(t0, fosterParent, node, children[..j])
    {
      TakeOneMore(children, j);
      EachBeforeLast(t0, fosterParent, node, children[..j], children[j]);
      InsertBeforeClosed(Snap(ns), fosterParent, node, children[j]);
      InsertBefore(ns, fosterParent, node, children[j]);
      ghost var s := Snap(ns);
      assert s == Tree(s.kids, s.parent);
    }
    assert children[..|children|] == children;
  }

  /**
   * `removeFakeRootElements`: one walk from `root` collects the fake roots,
   * each unshifted to the front of the list, and then each is dissolved in
   * list order.
   */
  method RemoveFakeRootElements(ghost ns: set<Node>, root: Node)
    requires root in ns && Closed(Snap(ns)) && HeapRanked(ns)
    modifies ns`childNodes, ns`parentNode
    ensures Ranked(old(Snap(ns)))
    ensures Snap(ns) == RemoveFakeRootElementsT(old(Snap(ns)), root) && Closed(Snap(ns))
  {
    ghost var t0 := Snap(ns);
    var walk := DepthFirst(ns, root);
    PreOrderInside(t0, root);
    var fakeRootElements := CollectFakeRoots(walk);
    for j := 0 to |fakeRootElements|
      invariant Closed(Snap(ns))
      invariant Snap(ns) == RemoveEachSaveChildren(t0, fakeRootElements[..j])
    {
      TakeOneMore(fakeRootElements, j);
      RemoveEachSnoc(t0, fakeRootElements[..j], fakeRootElements[j]);
      RemoveNodeSaveChildren(ns, fakeRootElements[j]);
    }
    assert fakeRootElements[..|fakeRootElements|] == fakeRootElements;
  }

  /** The walk of `removeFakeRootElements`: every fake root met is unshifted onto the list. */
  method CollectFakeRoots(walk: seq<Node>) returns (fakeRootElements: seq<Node>)
    ensures fakeRootElements == FakeRoots(walk)
  {
    fakeRootElements := [];
    for i := 0 to |walk|
      invariant fakeRootElements == FakeRoots(walk[..i])
    {
      assert walk[..i + 1] == walk[..i] + [walk[i]];
      FakeRootsAppend(walk[..i], [walk[i]]);
      assert [walk[i]][1..] == [];
      if IsFakeRoot(walk[i]) {
        fakeRootElements := [walk[i]] + fakeRootElements;
      }
    }
    assert walk[..|walk|] == walk;
  }
}
