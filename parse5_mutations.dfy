/**
 * The toolkit's array primitives, with JavaScript's semantics, and its
 * mutations (src/support/parse5-utils.ts), as functions from one snapshot
 * to the next.
 */
module Parse5Mutations {
  import opened Parse5Tree

  // ---- Array primitives with JavaScript semantics ----

  /** `indexOf`: the first position of `x`, or -1. */
  function IndexOf(s: seq<Node>, x: Node): (i: int)
    ensures -1 <= i < |s|
    ensures i == -1 <==> x !in s
    ensures 0 <= i ==> s[i] == x && x !in s[..i]
  {
    if s == [] then -1
    else if s[0] == x then 0
    else
      var j := IndexOf(s[1..], x);
      assert s[1..][..j + 1] == s[1..j + 2] by { }
      if j == -1 then -1 else j + 1
  }

  /** `arr[i]`: undefined (null) outside the array. */
  function Get(s: seq<Node>, i: int): (r: Node?)
    ensures 0 <= i < |s| ==> r == s[i]
    ensures !(0 <= i < |s|) ==> r == null
  {
    if 0 <= i < |s| then s[i] else null
  }

  /** Where `splice` starts: a negative start counts from the end; both are clamped to the array. */
  function SpliceStart(len: nat, start: int): (k: nat)
    ensures k <= len
    ensures 0 <= start <= len ==> k == start
    ensures start < 0 && -start <= len ==> k == len + start
    ensures start > len ==> k == len
    ensures start < 0 && -start > len ==> k == 0
  {
    if start < 0 then (if len + start < 0 then 0 else len + start)
    else if start > len then len
    else start
  }

  /** `s.splice(start, deleteCount, ...items)`: the array afterwards. */
  function Splice(s: seq<Node>, start: int, deleteCount: int, items: seq<Node>): seq<Node>
  {
    var k := SpliceStart(|s|, start);
    var d := if deleteCount < 0 then 0 else if deleteCount > |s| - k then |s| - k else deleteCount;
    s[..k] + items + s[k + d..]
  }

  /**
   * What `splice` keeps: the entries before the clamped start, then the
   * items, then the entries after the deleted ones; a negative count
   * deletes nothing, and a count past the end deletes to the end.
   */
  lemma SpliceClamps(s: seq<Node>, start: int, deleteCount: int, items: seq<Node>)
    ensures var k := SpliceStart(|s|, start);
            var r := Splice(s, start, deleteCount, items);
            && |s[..k] + items| <= |r| && r[..k] == s[..k] && r[k..k + |items|] == items
            && (deleteCount <= 0 ==> r[k + |items|..] == s[k..])
            && (0 <= deleteCount <= |s| - k ==> r[k + |items|..] == s[k + deleteCount..])
            && (deleteCount >= |s| - k ==> r == s[..k] + items)
  {
  }

  /** Removing the entry `indexOf` finds deletes exactly that occurrence of `x`. */
  lemma SpliceOutFound(s: seq<Node>, x: Node)
    requires x in s
    ensures var i := IndexOf(s, x);
            Splice(s, i, 1, []) == s[..i] + s[i + 1..]
  {
  }

  /** When `x` is missing, `indexOf` gives -1 and `splice(-1, 1)` drops the LAST entry instead. */
  lemma SpliceOutMissing(s: seq<Node>, x: Node)
    requires x !in s && s != []
    ensures Splice(s, IndexOf(s, x), 1, []) == s[..|s| - 1]
  {
  }

  // ---- The toolkit's mutations, on snapshots ----

  /**
   * `removeNode`: a child-kind node is spliced out of its parent's list at the
   * position `indexOf` reports; any node's `parentNode` is cleared. (A
   * parent outside the snapshot is not part of it and is left alone.)
   */
  function RemoveNodeT(t: Tree, node: Node): (r: Tree)
    requires node in t.parent
    ensures r.kids.Keys == t.kids.Keys && r.parent.Keys == t.parent.Keys
  {
    var p := t.parent[node];
    if IsChild(node) && p != null && p in t.kids then
      Tree(t.kids[p := Splice(t.kids[p], IndexOf(t.kids[p], node), 1, [])], t.parent[node := null])
    else
      Tree(t.kids, t.parent[node := null])
  }

  /** The `forEach` of `insertNode`: each child-kind node of `nodes` in the snapshot gets `parent`. */
  function SetParents(m: map<Node, Node?>, nodes: seq<Node>, parent: Node): (r: map<Node, Node?>)
    ensures r.Keys == m.Keys
    ensures forall n | n in nodes && IsChild(n) && n in m :: r[n] == parent
    ensures forall n | n in m && (n !in nodes || !IsChild(n)) :: r[n] == m[n]
  {
    if nodes == [] then m
    else
      var last := nodes[|nodes| - 1];
      var before := SetParents(m, nodes[..|nodes| - 1], parent);
      assert forall n | n in nodes :: n in nodes[..|nodes| - 1] || n == last;
      if IsChild(last) && last in m then before[last := parent] else before
  }

  lemma SetParentsSnoc(m: map<Node, Node?>, nodes: seq<Node>, x: Node, parent: Node)
    ensures SetParents(m, nodes + [x], parent)
            == if IsChild(x) && x in m then SetParents(m, nodes, parent)[x := parent] else SetParents(m, nodes, parent)
  {
    assert (nodes + [x])[..|nodes|] == nodes;
  }

  /**
   * `insertNode`: for a parent kind, a fragment gives up all its children and
   * any other node is first removed from where it was; the new nodes are
   * spliced in at `index` (replacing one entry when `replace` is set), the
   * child-kind ones are reparented, and the replaced node, if any, loses its
   * `parentNode`.
   */
  function InsertNodeT(t: Tree, parent: Node, index: int, newNode: Node, replace: bool): (r: Tree)
    requires parent in t.kids && newNode in t.kids && newNode in t.parent
    ensures r.kids.Keys == t.kids.Keys && r.parent.Keys == t.parent.Keys
  {
    if !IsParent(parent) then t
    else
      var newNodes := if IsDocumentFragment(newNode) then t.kids[newNode] else [newNode];
      var t1 := if IsDocumentFragment(newNode) then t.(kids := t.kids[newNode := []])
                else RemoveNodeT(t, newNode);
      var removed := if replace then Get(t1.kids[parent], index) else null;
      var kids := t1.kids[parent := Splice(t1.kids[parent], index, if replace then 1 else 0, newNodes)];
      var parents := SetParents(t1.parent, newNodes, parent);
      var parents' := if removed != null && IsChild(removed) && removed in parents then parents[removed := null] else parents;
      Tree(kids, parents')
  }

  /** `insertNode` on a parent kind, stage by stage: the snapshot `t1` after the new node is taken from where it was, then the splice and the reparenting. */
  lemma InsertNodeStages(t: Tree, parent: Node, index: int, newNode: Node, replace: bool, t1: Tree, newNodes: seq<Node>)
    requires parent in t.kids && newNode in t.kids && newNode in t.parent && IsParent(parent)
    requires t1 == if IsDocumentFragment(newNode) then t.(kids := t.kids[newNode := []]) else RemoveNodeT(t, newNode)
    requires newNodes == if IsDocumentFragment(newNode) then t.kids[newNode] else [newNode]
    ensures var removed := if replace then Get(t1.kids[parent], index) else null;
            var parents := SetParents(t1.parent, newNodes, parent);
            && InsertNodeT(t, parent, index, newNode, replace).kids
               == t1.kids[parent := Splice(t1.kids[parent], index, if replace then 1 else 0, newNodes)]
            && InsertNodeT(t, parent, index, newNode, replace).parent
               == if removed != null && IsChild(removed) && removed in parents then parents[removed := null] else parents
  {
  }

  /** `insertBefore`: insert at the position of `oldNode` in the parent's list (-1 when it is not there). */
  function InsertBeforeT(t: Tree, parent: Node, oldNode: Node, newNode: Node): (r: Tree)
    requires parent in t.kids && newNode in t.kids && newNode in t.parent
    ensures !IsParent(parent) ==> r == t
    ensures IsParent(parent) ==> r == InsertNodeT(t, parent, IndexOf(t.kids[parent], oldNode), newNode, false)
  {
    if !IsParent(parent) then t
    else InsertNodeT(t, parent, IndexOf(t.kids[parent], oldNode), newNode, false)
  }

  /**
   * Inserting an attached child-kind node (not a fragment) without
   * replacement: it leaves the list of its old parent and enters the new
   * parent's list at `index`, pointing at the new parent.
   */
  lemma InsertNodeMoves(t: Tree, parent: Node, index: int, newNode: Node)
    requires parent in t.kids && newNode in t.kids && t.kids.Keys == t.parent.Keys
    requires IsParent(parent) && IsChild(newNode)
    requires t.parent[newNode] != null && t.parent[newNode] in t.kids && t.parent[newNode] != parent
    ensures var q := t.parent[newNode];
            InsertNodeT(t, parent, index, newNode, false)
            == Tree(t.kids[q := Splice(t.kids[q], IndexOf(t.kids[q], newNode), 1, [])]
                          [parent := Splice(t.kids[parent], index, 0, [newNode])],
                    t.parent[newNode := parent])
  {
    KindsOverlapInElementsOnly(newNode);
    var t1 := RemoveNodeT(t, newNode);
    assert t1.kids[parent] == t.kids[parent];
    assert SetParents(t1.parent, [newNode], parent) == t.parent[newNode := null][newNode := parent];
  }

  /** The same move through `insertBefore`, at the position of `oldNode`. */
  lemma InsertBeforeMoves(t: Tree, parent: Node, oldNode: Node, newNode: Node)
    requires parent in t.kids && newNode in t.kids && t.kids.Keys == t.parent.Keys
    requires IsParent(parent) && IsChild(newNode)
    requires t.parent[newNode] != null && t.parent[newNode] in t.kids && t.parent[newNode] != parent
    ensures var q := t.parent[newNode];
            InsertBeforeT(t, parent, oldNode, newNode)
            == Tree(t.kids[q := Splice(t.kids[q], IndexOf(t.kids[q], newNode), 1, [])]
                          [parent := Splice(t.kids[parent], IndexOf(t.kids[parent], oldNode), 0, [newNode])],
                    t.parent[newNode := parent])
  {
    InsertNodeMoves(t, parent, IndexOf(t.kids[parent], oldNode), newNode);
  }

  // ---- What each mutation does to the snapshot ----

  /** `splice` only rearranges what was there and what it is given. */
  lemma SpliceMembers(s: seq<Node>, start: int, deleteCount: int, items: seq<Node>)
    ensures forall x | x in Splice(s, start, deleteCount, items) :: x in s || x in items
  {
    var k := SpliceStart(|s|, start);
    var d := if deleteCount < 0 then 0 else if deleteCount > |s| - k then |s| - k else deleteCount;
    forall x | x in s[..k] + s[k + d..]
      ensures x in s
    {
      if x in s[..k] {
        var j :| 0 <= j < k && s[..k][j] == x;
        assert s[j] == x;
      } else {
        var j :| 0 <= j < |s| - k - d && s[k + d..][j] == x;
        assert s[k + d + j] == x;
      }
    }
  }

  /**
   * `removeNode` on a child-kind node listed by its parent deletes exactly
   * that entry (its first occurrence) and clears its `parentNode`;
   * nothing else changes.
   */
  lemma RemoveNodeListed(t: Tree, node: Node)
    requires node in t.parent && IsChild(node)
    requires t.parent[node] != null && t.parent[node] in t.kids && node in t.kids[t.parent[node]]
    ensures var p := t.parent[node];
            var s := t.kids[p];
            var i := IndexOf(s, node);
            var r := RemoveNodeT(t, node);
            && 0 <= i && s == s[..i] + [node] + s[i + 1..] && node !in s[..i]
            && r.kids[p] == s[..i] + s[i + 1..]
            && multiset(r.kids[p]) == multiset(s) - multiset{node}
            && (forall n | n in t.kids && n != p :: r.kids[n] == t.kids[n])
            && r.parent[node] == null
            && (forall n | n in t.parent && n != node :: r.parent[n] == t.parent[n])
  {
    var p := t.parent[node];
    var s := t.kids[p];
    var i := IndexOf(s, node);
    assert s == s[..i] + [node] + s[i + 1..];
    SpliceOutFound(s, node);
    calc {
      multiset(s);
      multiset(s[..i] + [node] + s[i + 1..]);
      multiset(s[..i] + s[i + 1..]) + multiset{node};
    }
  }

  /**
   * When the parent does not list the node, `indexOf` gives -1 and
   * `removeNode` deletes the parent's LAST child instead; the node's
   * `parentNode` is still cleared.
   */
  lemma RemoveNodeUnlisted(t: Tree, node: Node)
    requires node in t.parent && IsChild(node)
    requires t.parent[node] != null && t.parent[node] in t.kids && node !in t.kids[t.parent[node]]
    requires t.kids[t.parent[node]] != []
    ensures var p := t.parent[node];
            var s := t.kids[p];
            var r := RemoveNodeT(t, node);
            r.kids[p] == s[..|s| - 1] && r.parent[node] == null
  {
    SpliceOutMissing(t.kids[t.parent[node]], node);
  }

  /** `removeNode` on a node that is not a child kind, or has no parent, only clears its `parentNode`. */
  lemma RemoveNodeUnattached(t: Tree, node: Node)
    requires node in t.parent && (!IsChild(node) || t.parent[node] == null)
    ensures RemoveNodeT(t, node).kids == t.kids
    ensures RemoveNodeT(t, node).parent == t.parent[node := null]
  {
  }

  /**
   * `insertNode` of a document fragment into another parent: the fragment
   * is emptied, its children are spliced in at `index` in order (replacing
   * the entry there when `replace` is set), the child-kind ones point at the
   * parent, and the replaced child, unless it is one of them, loses its
   * `parentNode`.
   */
  lemma InsertNodeFragment(t: Tree, parent: Node, index: int, frag: Node, replace: bool)
    requires parent in t.kids && frag in t.kids && t.kids.Keys == t.parent.Keys
    requires IsParent(parent) && IsDocumentFragment(frag) && frag != parent
    ensures var s := t.kids[parent];
            var fk := t.kids[frag];
            var r := InsertNodeT(t, parent, index, frag, replace);
            && r.kids[parent] == Splice(s, index, if replace then 1 else 0, fk)
            && r.kids[frag] == []
            && (forall n | n in t.kids && n != parent && n != frag :: r.kids[n] == t.kids[n])
            && (forall c | c in fk && IsChild(c) && c in t.parent && !(replace && c == Get(s, index)) :: r.parent[c] == parent)
            && (replace && Get(s, index) != null && IsChild(Get(s, index)) && Get(s, index) in t.parent ==> r.parent[Get(s, index)] == null)
            && (forall n | n in t.parent && n !in fk && !(replace && n == Get(s, index)) :: r.parent[n] == t.parent[n])
  {
  }

  /**
   * `insertNode` with `replace` of a child-kind node listed elsewhere: it
   * takes the place of the entry at `index`, which loses its `parentNode`.
   */
  lemma InsertNodeReplaces(t: Tree, parent: Node, index: int, newNode: Node)
    requires parent in t.kids && newNode in t.kids && t.kids.Keys == t.parent.Keys
    requires IsParent(parent) && IsChild(newNode)
    requires t.parent[newNode] != null && t.parent[newNode] in t.kids && t.parent[newNode] != parent
    requires 0 <= index < |t.kids[parent]|
    requires t.kids[parent][index] != newNode && IsChild(t.kids[parent][index]) && t.kids[parent][index] in t.parent
    ensures var s := t.kids[parent];
            var old_ := s[index];
            var r := InsertNodeT(t, parent, index, newNode, true);
            && r.kids[parent] == s[..index] + [newNode] + s[index + 1..]
            && r.parent[newNode] == parent && r.parent[old_] == null
            && (forall n | n in t.parent && n != newNode && n != old_ :: r.parent[n] == t.parent[n])
  {
    KindsOverlapInElementsOnly(newNode);
    var t1 := RemoveNodeT(t, newNode);
    assert t1.kids[parent] == t.kids[parent];
  }

  // ---- Closedness ----

  lemma RemoveNodeClosed(t: Tree, node: Node)
    requires Closed(t) && node in t.parent
    ensures Closed(RemoveNodeT(t, node))
  {
    var p := t.parent[node];
    if IsChild(node) && p != null && p in t.kids {
      SpliceMembers(t.kids[p], IndexOf(t.kids[p], node), 1, []);
    }
  }

  /** `insertNode` keeps every child list and parent link inside the snapshot. */
  lemma InsertNodeClosed(t: Tree, parent: Node, index: int, newNode: Node, replace: bool)
    requires Closed(t) && parent in t.kids && newNode in t.kids
    ensures Closed(InsertNodeT(t, parent, index, newNode, replace))
  {
    if IsParent(parent) {
      var t1, newNodes;
      if IsDocumentFragment(newNode) {
        t1, newNodes := t.(kids := t.kids[newNode := []]), t.kids[newNode];
      } else {
        RemoveNodeClosed(t, newNode);
        t1, newNodes := RemoveNodeT(t, newNode), [newNode];
      }
      InsertListClosed(t1, parent, index, newNodes, replace);
      InsertNodeStages(t, parent, index, newNode, replace, t1, newNodes);
    }
  }

  /** The splice and reparenting steps of `insertNode` keep a closed snapshot closed. */
  lemma InsertListClosed(t1: Tree, parent: Node, index: int, newNodes: seq<Node>, replace: bool)
    requires Closed(t1) && parent in t1.kids && forall n | n in newNodes :: n in t1.kids
    ensures var removed := if replace then Get(t1.kids[parent], index) else null;
            var kids := t1.kids[parent := Splice(t1.kids[parent], index, if replace then 1 else 0, newNodes)];
            var parents := SetParents(t1.parent, newNodes, parent);
            var parents' := if removed != null && IsChild(removed) && removed in parents then parents[removed := null] else parents;
            Closed(Tree(kids, parents'))
  {
    SpliceMembers(t1.kids[parent], index, if replace then 1 else 0, newNodes);
  }

  lemma InsertBeforeClosed(t: Tree, parent: Node, oldNode: Node, newNode: Node)
    requires Closed(t) && parent in t.kids && newNode in t.kids
    ensures Closed(InsertBeforeT(t, parent, oldNode, newNode))
  {
    if IsParent(parent) {
      InsertNodeClosed(t, parent, IndexOf(t.kids[parent], oldNode), newNode, false);
    }
  }
}
