/**
 * The parse5 node graph (src/support/parse5-utils.ts) and a value-level view
 * of it. Nodes are objects whose child lists and `parentNode` fields the
 * toolkit rewrites in place; a `Tree` is a snapshot of those two fields over
 * a set of nodes, and every operation on the heap is specified by a function
 * on snapshots. Each node carries a ghost `height` fixed at creation that is
 * larger than the height of any of its children, which keeps the graph
 * acyclic and lets walks recurse on it.
 */
module Parse5Tree {
  import opened JsString

  datatype Attr = Attr(name: string, value: string)

  class Node {
    const nodeName: string
    /** Whether parse5 recorded a `sourceCodeLocation` for the node. */
    const hasSourceLocation: bool
    ghost const height: nat
    var attrs: seq<Attr>
    /** The text of a `#text` node. */
    var value: string
    /** The text of a `#comment` node. */
    var data: string
    var childNodes: seq<Node>
    var parentNode: Node?

    /** A node as parse5 hands it over (the parser itself is not part of this model). */
    constructor (nodeName: string, hasSourceLocation: bool, ghost height: nat)
      ensures this.nodeName == nodeName && this.hasSourceLocation == hasSourceLocation
      ensures this.height == height
      ensures attrs == [] && value == "" && data == "" && childNodes == [] && parentNode == null
    {
      this.nodeName := nodeName;
      this.hasSourceLocation := hasSourceLocation;
      this.height := height;
      attrs := [];
      value := "";
      data := "";
      childNodes := [];
      parentNode := null;
    }

    /** `{nodeName: '#text', value, parentNode}`: a fresh text node, lowest in rank. */
    constructor Text(value: string, parentNode: Node?)
      ensures nodeName == "#text" && !hasSourceLocation && height == 0
      ensures this.value == value && this.parentNode == parentNode
      ensures attrs == [] && data == "" && childNodes == []
    {
      nodeName := "#text";
      hasSourceLocation := false;
      height := 0;
      attrs := [];
      this.value := value;
      data := "";
      childNodes := [];
      this.parentNode := parentNode;
    }
  }

  // ---- Node kinds, read off `nodeName` ----

  predicate IsCommentNode(n: Node) { n.nodeName == "#comment" }
  predicate IsDocument(n: Node) { n.nodeName == "#document" }
  predicate IsDocumentFragment(n: Node) { n.nodeName == "#document-fragment" }
  predicate IsElement(n: Node) { !StartsWith(n.nodeName, "#") }
  predicate IsTextNode(n: Node) { n.nodeName == "#text" }
  predicate IsChild(n: Node) { IsCommentNode(n) || IsElement(n) || IsTextNode(n) }
  predicate IsParent(n: Node) { IsElement(n) || IsDocumentFragment(n) || IsDocument(n) }

  /** The kinds overlap only in elements; a doctype (`#documentType`) is neither a child nor a parent kind. */
  lemma KindsOverlapInElementsOnly(n: Node)
    ensures IsChild(n) && IsParent(n) <==> IsElement(n)
    ensures IsTextNode(n) || IsCommentNode(n) ==> !IsParent(n)
    ensures IsChild(n) ==> !IsDocument(n) && !IsDocumentFragment(n)
  {
    assert "#document"[..1] == "#" && "#document-fragment"[..1] == "#";
    assert "#text"[..1] == "#" && "#comment"[..1] == "#";
  }

  // ---- Snapshots ----

  /** The child lists and `parentNode` fields of a set of nodes (the key set of both maps). */
  datatype Tree = Tree(kids: map<Node, seq<Node>>, parent: map<Node, Node?>)

  predicate Distinct(s: seq<Node>)
  {
    forall i, j | 0 <= i < j < |s| :: s[i] != s[j]
  }

  /** Children are snapshot nodes of smaller height: the graph has no cycle. */
  ghost predicate Ranked(t: Tree)
  {
    forall n, c | n in t.kids && c in t.kids[n] :: c in t.kids && c.height < n.height
  }

  /**
   * The shape parse5 trees keep and the toolkit preserves: ranked children,
   * each child-kind child pointing back at its holder, no child listed twice,
   * only parent kinds holding children, parent kinds above the lowest rank,
   * and only a document holding children of other kinds (its doctype).
   */
  ghost predicate WellFormed(t: Tree)
  {
    && t.kids.Keys == t.parent.Keys
    && Ranked(t)
    && (forall n, c | n in t.kids && c in t.kids[n] :: IsChild(c) ==> t.parent[c] == n)
    && (forall n, c | n in t.kids && c in t.kids[n] :: !IsChild(c) ==> IsDocument(n))
    && (forall n | n in t.kids :: Distinct(t.kids[n]))
    && (forall n | n in t.kids :: !IsParent(n) ==> t.kids[n] == [])
    && (forall n | n in t.kids :: IsParent(n) ==> n.height > 0)
  }

  /** Every child listed and every parent pointed at is a node of the snapshot. */
  ghost predicate Closed(t: Tree)
  {
    && t.kids.Keys == t.parent.Keys
    && (forall n, c | n in t.kids && c in t.kids[n] :: c in t.kids)
    && (forall n | n in t.parent && t.parent[n] != null :: t.parent[n] in t.kids)
  }

  // ---- Pre-order walk ----

  /** `depthFirst`: the node, then, for a parent kind, the walk of each child from left to right. */
  function PreOrder(t: Tree, n: Node): (r: seq<Node>)
    requires Ranked(t)
    ensures |r| >= 1 && r[0] == n
    decreases n.height, 1
  {
    [n] + (if IsParent(n) && n in t.kids then PreOrderList(t, t.kids[n], n.height) else [])
  }

  /** The walks of `cs`, one after another. */
  function PreOrderList(t: Tree, cs: seq<Node>, ghost bound: nat): (r: seq<Node>)
    requires Ranked(t)
    requires forall c | c in cs :: c.height < bound
    decreases bound, 0, |cs|
  {
    if cs == [] then [] else PreOrder(t, cs[0]) + PreOrderList(t, cs[1..], bound)
  }

  /** A walk from a snapshot node stays among the snapshot's nodes. */
  lemma {:induction false} PreOrderInside(t: Tree, n: Node)
    requires Ranked(t) && n in t.kids
    ensures forall x | x in PreOrder(t, n) :: x in t.kids
    decreases n.height, 1
  {
    if IsParent(n) {
      PreOrderListInside(t, t.kids[n], n.height);
    }
  }

  lemma {:induction false} PreOrderListInside(t: Tree, cs: seq<Node>, bound: nat)
    requires Ranked(t) && forall c | c in cs :: c in t.kids && c.height < bound
    ensures forall x | x in PreOrderList(t, cs, bound) :: x in t.kids
    decreases bound, 0, |cs|
  {
    if cs != [] {
      PreOrderInside(t, cs[0]);
      PreOrderListInside(t, cs[1..], bound);
    }
  }

  lemma {:induction false} PreOrderListAppend(t: Tree, a: seq<Node>, b: seq<Node>, bound: nat)
    requires Ranked(t)
    requires forall c | c in a + b :: c.height < bound
    ensures PreOrderList(t, a + b, bound) == PreOrderList(t, a, bound) + PreOrderList(t, b, bound)
  {
    if a != [] {
      assert (a + b)[1..] == a[1..] + b;
      PreOrderListAppend(t, a[1..], b, bound);
    } else {
      assert a + b == b;
    }
  }

  /** The walk of a list does not depend on the bound it is measured against. */
  lemma {:induction false} PreOrderListBound(t: Tree, cs: seq<Node>, b1: nat, b2: nat)
    requires Ranked(t)
    requires forall c | c in cs :: c.height < b1 && c.height < b2
    ensures PreOrderList(t, cs, b1) == PreOrderList(t, cs, b2)
  {
    if cs != [] {
      PreOrderListBound(t, cs[1..], b1, b2);
    }
  }

  /** The two snapshots give the same children to every parent of `walk`. */
  ghost predicate SameBelow(t: Tree, t': Tree, walk: seq<Node>)
  {
    forall y | y in walk && IsParent(y) :: (y in t.kids <==> y in t'.kids) && (y in t.kids ==> t'.kids[y] == t.kids[y])
  }

  /** The walk from `n` depends only on the children of the parents it meets. */
  lemma {:induction false} PreOrderFramed(t: Tree, t': Tree, n: Node)
    requires Ranked(t) && Ranked(t') && SameBelow(t, t', PreOrder(t, n))
    ensures PreOrder(t', n) == PreOrder(t, n)
    decreases n.height, 1
  {
    if IsParent(n) && n in t.kids {
      assert n in PreOrder(t, n);
      PreOrderListFramed(t, t', t.kids[n], n.height);
    }
  }

  lemma {:induction false} PreOrderListFramed(t: Tree, t': Tree, cs: seq<Node>, bound: nat)
    requires Ranked(t) && Ranked(t') && forall c | c in cs :: c.height < bound
    requires SameBelow(t, t', PreOrderList(t, cs, bound))
    ensures PreOrderList(t', cs, bound) == PreOrderList(t, cs, bound)
    decreases bound, 0, |cs|
  {
    if cs != [] {
      PreOrderFramed(t, t', cs[0]);
      PreOrderListFramed(t, t', cs[1..], bound);
    }
  }

  /** `s` without the nodes of `gone`, order kept. */
  function Without(s: seq<Node>, gone: set<Node>): seq<Node>
  {
    if s == [] then []
    else (if s[0] in gone then [] else [s[0]]) + Without(s[1..], gone)
  }

  /** Exactly the nodes of `s` outside `gone` remain. */
  lemma {:induction false} WithoutMembers(s: seq<Node>, gone: set<Node>, x: Node)
    ensures x in Without(s, gone) <==> x in s && x !in gone
  {
    if s != [] {
      WithoutMembers(s[1..], gone, x);
      assert s == [s[0]] + s[1..];
    }
  }

  lemma {:induction false} WithoutAppend(a: seq<Node>, b: seq<Node>, gone: set<Node>)
    ensures Without(a + b, gone) == Without(a, gone) + Without(b, gone)
  {
    if a != [] {
      assert (a + b)[1..] == a[1..] + b;
      WithoutAppend(a[1..], b, gone);
    } else {
      assert a + b == b;
    }
  }

  lemma {:induction false} WithoutUnion(s: seq<Node>, g1: set<Node>, g2: set<Node>)
    ensures Without(Without(s, g1), g2) == Without(s, g1 + g2)
  {
    if s != [] {
      WithoutUnion(s[1..], g1, g2);
      var head := if s[0] in g1 then [] else [s[0]];
      WithoutAppend(head, Without(s[1..], g1), g2);
    }
  }

  lemma {:induction false} WithoutNothing(s: seq<Node>, gone: set<Node>)
    requires forall x | x in s :: x !in gone
    ensures Without(s, gone) == s
  {
    if s != [] {
      WithoutNothing(s[1..], gone);
    }
  }
}
