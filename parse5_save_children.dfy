/**
 * `removeNodeSaveChildren` (src/support/parse5-utils.ts): its outcome on a
 * snapshot, and the proof that its loop of `insertBefore` calls followed by
 * `removeNode` reaches that outcome.
 */
module Parse5SaveChildren {
  import opened Parse5Tree
  import opened Parse5Mutations

  // ---- removeNodeSaveChildren ----

  /** `node` sits in the child list of the node its `parentNode` names. */
  ghost predicate Attached(t: Tree, node: Node)
  {
    node in t.parent && t.parent[node] != null && t.parent[node] in t.kids && node in t.kids[t.parent[node]]
  }

  /** What the loop of `removeNodeSaveChildren` needs to run on `node`. */
  ghost predicate Movable(t: Tree, node: Node)
  {
    && t.kids.Keys == t.parent.Keys && Attached(t, node) && node in t.kids
    && forall c | c in t.kids[node] :: c in t.kids
  }

  /** The children `removeNodeSaveChildren` hands to the foster parent: all of them for a parent kind. */
  function SavedChildren(t: Tree, node: Node): seq<Node>
    requires node in t.kids
  {
    if IsParent(node) then t.kids[node] else []
  }

  /**
   * The outcome of `removeNodeSaveChildren` on an attached child-kind node:
   * its children take its place, in order, in the foster parent's list and
   * point at the foster parent; the node is left with no children and no parent.
   */
  function SaveChildrenT(t: Tree, node: Node): (r: Tree)
    requires Movable(t, node)
    ensures r.kids.Keys == t.kids.Keys && r.parent.Keys == t.parent.Keys
  {
    var p := t.parent[node];
    var i := IndexOf(t.kids[p], node);
    var k := SavedChildren(t, node);
    Tree(t.kids[p := t.kids[p][..i] + k + t.kids[p][i + 1..]][node := []],
         SetParents(t.parent, k, p)[node := null])
  }

  /**
   * What the proofs about `removeNodeSaveChildren` use of a well-formed
   * snapshot: the node sits once in its foster parent's list, and its saved
   * children are distinct child-kind nodes pointing back at it.
   */
  ghost predicate SaveReady(t: Tree, node: Node)
  {
    && Movable(t, node) && IsChild(node)
    && var p := t.parent[node];
       var i := IndexOf(t.kids[p], node);
       var k := SavedChildren(t, node);
       && 0 <= i && p != node && IsParent(p) && node !in t.kids[p][i + 1..]
       && (forall c | c in t.kids[p] :: c in t.kids)
       && k == t.kids[node]
       && (forall c | c in k :: IsChild(c) && t.parent[c] == node)
       && Distinct(k) && node !in k
  }

  /** Facts about an attached node of a well-formed snapshot that the proofs below share. */
  lemma AttachedFacts(t: Tree, node: Node)
    requires WellFormed(t) && Attached(t, node) && IsChild(node)
    ensures SaveReady(t, node)
    ensures var p := t.parent[node];
            && node.height < p.height
            && (forall c | c in SavedChildren(t, node) :: c.height < node.height)
  {
    var p := t.parent[node];
    var s := t.kids[p];
    var i := IndexOf(s, node);
    assert s == s[..i] + [node] + s[i + 1..];
    KindsOverlapInElementsOnly(node);
  }

  /** The snapshot after the loop of `removeNodeSaveChildren` has moved the first `j` children. */
  function MovedChildren(t: Tree, node: Node, j: nat): (r: Tree)
    requires Movable(t, node) && j <= |SavedChildren(t, node)|
    ensures r.kids.Keys == t.kids.Keys && r.parent.Keys == t.parent.Keys
  {
    var p := t.parent[node];
    var s := t.kids[p];
    var i := IndexOf(s, node);
    var k := SavedChildren(t, node);
    Tree(t.kids[p := s[..i] + k[..j] + [node] + s[i + 1..]][node := k[j..]],
         SetParents(t.parent, k[..j], p))
  }

  lemma MovedNone(t: Tree, node: Node)
    requires SaveReady(t, node)
    ensures MovedChildren(t, node, 0) == t
  {
    var p := t.parent[node];
    var s := t.kids[p];
    var i := IndexOf(s, node);
    var k := SavedChildren(t, node);
    assert k[0..] == t.kids[node];
    assert s[..i] + k[..0] + [node] + s[i + 1..] == s;
    assert t.kids[p := s][node := t.kids[node]] == t.kids;
    assert SetParents(t.parent, k[..0], p) == t.parent;
  }

  /**
   * `insertBefore(fosterParent, node, c)` when `c`, the first child `node`
   * still holds, moves: `c` goes just before `node` and points at the foster
   * parent.
   */
  lemma InsertBeforeMovesNext(kids: map<Node, seq<Node>>, parent: map<Node, Node?>, fp: Node, node: Node,
                              pre: seq<Node>, post: seq<Node>, k: seq<Node>, j: nat)
    requires kids.Keys == parent.Keys && fp in kids && node in kids && fp != node
    requires j < |k| && k[j] in kids && parent[k[j]] == node && IsChild(k[j]) && IsParent(fp)
    requires kids[fp] == pre + k[..j] + [node] + post && node !in pre && node !in k
    requires kids[node] == k[j..]
    ensures InsertBeforeT(Tree(kids, parent), fp, node, k[j]).kids
            == kids[node := k[j + 1..]][fp := pre + k[..j + 1] + [node] + post]
    ensures InsertBeforeT(Tree(kids, parent), fp, node, k[j]).parent == parent[k[j] := fp]
  {
    var c := k[j];
    KindsOverlapInElementsOnly(c);
    var s := pre + [node] + post;
    assert s[..|pre|] == pre && s[|pre|] == node && s[|pre| + 1..] == post;
    MovedListIndex(s, |pre|, k, j, node);
    InsertBeforeMoves(Tree(kids, parent), fp, node, c);
    assert IndexOf(k[j..], c) == 0;
    assert Splice(k[j..], 0, 1, []) == k[j + 1..];
  }

  /** One round of the loop: `insertBefore(fosterParent, node, child)` moves the next child. */
  lemma MovedStep(t: Tree, node: Node, j: nat)
    requires SaveReady(t, node) && j < |SavedChildren(t, node)|
    ensures var m := MovedChildren(t, node, j);
            var c := SavedChildren(t, node)[j];
            c in m.kids && !IsDocumentFragment(c)
    ensures var m := MovedChildren(t, node, j);
            var c := SavedChildren(t, node)[j];
            InsertBeforeT(m, t.parent[node], node, c).kids == MovedChildren(t, node, j + 1).kids
    ensures var m := MovedChildren(t, node, j);
            var c := SavedChildren(t, node)[j];
            InsertBeforeT(m, t.parent[node], node, c).parent == MovedChildren(t, node, j + 1).parent
  {
    var p := t.parent[node];
    var s := t.kids[p];
    var i := IndexOf(s, node);
    var k := SavedChildren(t, node);
    KindsOverlapInElementsOnly(k[j]);
    var m := MovedChildren(t, node, j);
    assert k[j] !in k[..j];
    assert m.kids[p] == s[..i] + k[..j] + [node] + s[i + 1..];
    assert m.kids[node] == k[j..];
    InsertBeforeMovesNext(m.kids, m.parent, p, node, s[..i], s[i + 1..], k, j);
    MovedKidsStep(t, node, j);
    MovedParentsStep(t, node, j);
  }

  lemma MovedKidsStep(t: Tree, node: Node, j: nat)
    requires SaveReady(t, node) && j < |SavedChildren(t, node)|
    ensures var p := t.parent[node];
            var s := t.kids[p];
            var i := IndexOf(s, node);
            var k := SavedChildren(t, node);
            MovedChildren(t, node, j).kids[node := k[j + 1..]][p := s[..i] + k[..j + 1] + [node] + s[i + 1..]]
            == MovedChildren(t, node, j + 1).kids
  {
    var p := t.parent[node];
    var s := t.kids[p];
    var i := IndexOf(s, node);
    var k := SavedChildren(t, node);
    UpdateTwice(t.kids, p, node, s[..i] + k[..j] + [node] + s[i + 1..], k[j..],
                k[j + 1..], s[..i] + k[..j + 1] + [node] + s[i + 1..]);
  }

  lemma UpdateTwice<K, V>(m: map<K, V>, a: K, b: K, x: V, y: V, z: V, w: V)
    requires a != b
    ensures m[a := x][b := y][b := z][a := w] == m[a := w][b := z]
  {
  }

  lemma MovedParentsStep(t: Tree, node: Node, j: nat)
    requires SaveReady(t, node) && j < |SavedChildren(t, node)|
    ensures var k := SavedChildren(t, node);
            MovedChildren(t, node, j).parent[k[j] := t.parent[node]] == MovedChildren(t, node, j + 1).parent
  {
    var k := SavedChildren(t, node);
    assert k[..j + 1][..j] == k[..j];
  }

  /** Where `node` sits in the foster parent's list while its children move, and what one more move gives. */
  lemma MovedListIndex(s: seq<Node>, i: nat, k: seq<Node>, j: nat, node: Node)
    requires i < |s| && s[i] == node && node !in s[..i] && node !in k && j < |k|
    ensures IndexOf(s[..i] + k[..j] + [node] + s[i + 1..], node) == i + j
    ensures Splice(s[..i] + k[..j] + [node] + s[i + 1..], i + j, 0, [k[j]])
            == s[..i] + k[..j + 1] + [node] + s[i + 1..]
  {
    var listP := s[..i] + k[..j] + [node] + s[i + 1..];
    assert listP[i + j] == node;
    assert listP[..i + j] == s[..i] + k[..j];
    assert listP[i + j..] == [node] + s[i + 1..];
    assert k[..j + 1] == k[..j] + [k[j]];
  }

  /** `removeNode` on a node listed once in its parent's list, after `pre + k`. */
  lemma RemoveNodeAfter(kids: map<Node, seq<Node>>, parent: map<Node, Node?>, fp: Node, node: Node,
                        pre: seq<Node>, post: seq<Node>)
    requires fp in kids && node in parent && parent[node] == fp && IsChild(node)
    requires kids[fp] == pre + [node] + post && node !in pre
    ensures RemoveNodeT(Tree(kids, parent), node).kids == kids[fp := pre + post]
    ensures RemoveNodeT(Tree(kids, parent), node).parent == parent[node := null]
  {
    var s := pre + [node] + post;
    assert s[|pre|] == node && s[..|pre|] == pre;
    assert IndexOf(s, node) == |pre|;
    assert s[|pre| + 1..] == post;
    assert Splice(s, |pre|, 1, []) == pre + post;
  }

  /** After the loop, `removeNode(node)` gives the outcome of `removeNodeSaveChildren`. */
  lemma MovedAll(t: Tree, node: Node)
    requires SaveReady(t, node)
    ensures var m := MovedChildren(t, node, |SavedChildren(t, node)|);
            node in m.parent && m.parent[node] == t.parent[node]
    ensures RemoveNodeT(MovedChildren(t, node, |SavedChildren(t, node)|), node).kids == SaveChildrenT(t, node).kids
    ensures RemoveNodeT(MovedChildren(t, node, |SavedChildren(t, node)|), node).parent == SaveChildrenT(t, node).parent
  {
    var p := t.parent[node];
    var s := t.kids[p];
    var i := IndexOf(s, node);
    var k := SavedChildren(t, node);
    var m := MovedChildren(t, node, |k|);
    MovedAllShape(t, node);
    RemoveNodeAfter(m.kids, m.parent, p, node, s[..i] + k, s[i + 1..]);
    UpdateTwice(t.kids, p, node, s[..i] + k + [node] + s[i + 1..], [], [], s[..i] + k + s[i + 1..]);
  }

  lemma MovedAllShape(t: Tree, node: Node)
    requires SaveReady(t, node)
    ensures var p := t.parent[node];
            var s := t.kids[p];
            var i := IndexOf(s, node);
            var k := SavedChildren(t, node);
            var m := MovedChildren(t, node, |k|);
            && m.kids == t.kids[p := s[..i] + k + [node] + s[i + 1..]][node := []]
            && m.parent == SetParents(t.parent, k, p)
            && m.parent[node] == p
  {
    var k := SavedChildren(t, node);
    assert k[..|k|] == k && k[|k|..] == [];
  }

  // ---- What removeNodeSaveChildren does to the tree ----

  /**
   * `r` is `t` with `node`, listed in `p` between `pre` and `post`, replaced
   * there by its children `k`: `node` is left empty and detached, the
   * children point at `p`, and nothing else changes.
   */
  ghost predicate Spliced(t: Tree, r: Tree, p: Node, node: Node, pre: seq<Node>, k: seq<Node>, post: seq<Node>)
  {
    && r.kids.Keys == t.kids.Keys && r.parent.Keys == t.parent.Keys && t.kids.Keys == t.parent.Keys
    && p in t.kids && node in t.kids && p != node
    && t.kids[p] == pre + [node] + post && t.kids[node] == k && t.parent[node] == p
    && r.kids[p] == pre + k + post && r.kids[node] == []
    && (forall n | n in t.kids && n != p && n != node :: r.kids[n] == t.kids[n])
    && r.parent[node] == null
    && (forall c | c in k :: c in r.parent && r.parent[c] == p)
    && (forall n | n in t.parent && n != node && n !in k :: r.parent[n] == t.parent[n])
  }

  /** The snapshot after `removeNodeSaveChildren`, node by node. */
  lemma SaveChildrenShape(t: Tree, node: Node)
    requires WellFormed(t) && Attached(t, node) && IsChild(node)
    ensures var p := t.parent[node];
            var s := t.kids[p];
            var i := IndexOf(s, node);
            0 <= i && Spliced(t, SaveChildrenT(t, node), p, node, s[..i], t.kids[node], s[i + 1..])
  {
    AttachedFacts(t, node);
    ReadySpliced(t, node);
  }

  lemma ReadySpliced(t: Tree, node: Node)
    requires SaveReady(t, node)
    ensures var p := t.parent[node];
            var s := t.kids[p];
            var i := IndexOf(s, node);
            0 <= i && Spliced(t, SaveChildrenT(t, node), p, node, s[..i], t.kids[node], s[i + 1..])
  {
    var p := t.parent[node];
    var s := t.kids[p];
    var i := IndexOf(s, node);
    var k := t.kids[node];
    assert s == s[..i] + [node] + s[i + 1..];
    var r := SaveChildrenT(t, node);
    assert r.kids == t.kids[p := s[..i] + k + s[i + 1..]][node := []];
    assert r.parent == SetParents(t.parent, k, p)[node := null];
  }

  lemma InSlices(s: seq<Node>, i: nat, c: Node)
    requires i < |s|
    ensures c in s[..i] ==> c in s
    ensures c in s[i + 1..] ==> c in s
  {
    if c in s[..i] {
      var j :| 0 <= j < i && s[..i][j] == c;
      assert s[j] == c;
    }
    if c in s[i + 1..] {
      var j :| 0 <= j < |s| - i - 1 && s[i + 1..][j] == c;
      assert s[i + 1 + j] == c;
    }
  }

  /** A list without repeats, cut around one of its entries. */
  lemma DistinctAround(pre: seq<Node>, node: Node, post: seq<Node>)
    requires Distinct(pre + [node] + post)
    ensures node !in pre && node !in post
    ensures forall c | c in pre :: c !in post
    ensures Distinct(pre) && Distinct(post)
  {
    var s := pre + [node] + post;
    assert s[|pre|] == node;
    forall a | 0 <= a < |pre|
      ensures pre[a] !in post && pre[a] != node
    {
      assert pre[a] == s[a];
      forall b | 0 <= b < |post|
        ensures post[b] != pre[a]
      {
        assert post[b] == s[|pre| + 1 + b];
      }
    }
    forall b | 0 <= b < |post|
      ensures post[b] != node
    {
      assert post[b] == s[|pre| + 1 + b];
    }
    assert forall a, b | 0 <= a < b < |pre| :: pre[a] == s[a] && pre[b] == s[b];
    assert forall a, b | 0 <= a < b < |post| :: post[a] == s[|pre| + 1 + a] && post[b] == s[|pre| + 1 + b];
  }

  /** What a well-formed snapshot says about the node being spliced out and its children. */
  lemma SplicedFacts(t: Tree, r: Tree, p: Node, node: Node, pre: seq<Node>, k: seq<Node>, post: seq<Node>)
    requires WellFormed(t) && Spliced(t, r, p, node, pre, k, post) && IsChild(node)
    ensures IsParent(p) && node.height < p.height
    ensures forall c | c in k :: IsChild(c) && t.parent[c] == node && c.height < node.height && c in t.kids
    ensures forall c | c in pre + post :: c in t.kids && c.height < p.height && c in t.kids[p]
    ensures forall c | c in k :: c !in pre + post
    ensures forall c | c in pre :: c !in post
    ensures node !in pre + post && node !in k
    ensures Distinct(pre) && Distinct(post) && Distinct(k)
  {
    KindsOverlapInElementsOnly(node);
    var s := pre + [node] + post;
    assert node in s;
    DistinctAround(pre, node, post);
    forall c | c in k
      ensures IsChild(c) && t.parent[c] == node
    {
      KindsOverlapInElementsOnly(c);
    }
    assert forall c | c in pre + post :: c in s;
    forall c | c in k
      ensures c !in pre + post
    {
      assert c !in s;
    }
  }

  /** Children still rank below their holder. */
  lemma SplicedRanked(t: Tree, r: Tree, p: Node, node: Node, pre: seq<Node>, k: seq<Node>, post: seq<Node>)
    requires WellFormed(t) && Spliced(t, r, p, node, pre, k, post) && IsChild(node)
    ensures Ranked(r)
  {
    SplicedFacts(t, r, p, node, pre, k, post);
    forall n, c | n in r.kids && c in r.kids[n]
      ensures c in r.kids && c.height < n.height
    {
      if n == p {
        assert c in pre + post || c in k;
      }
    }
  }

  /** Child-kind children point at their holder, and only a document holds other kinds. */
  lemma SplicedParents(t: Tree, r: Tree, p: Node, node: Node, pre: seq<Node>, k: seq<Node>, post: seq<Node>)
    requires WellFormed(t) && Spliced(t, r, p, node, pre, k, post) && IsChild(node)
    ensures forall n, c | n in r.kids && c in r.kids[n] :: IsChild(c) ==> c in r.parent && r.parent[c] == n
    ensures forall n, c | n in r.kids && c in r.kids[n] :: !IsChild(c) ==> IsDocument(n)
  {
    SplicedFacts(t, r, p, node, pre, k, post);
    forall n, c | n in r.kids && c in r.kids[n]
      ensures IsChild(c) ==> c in r.parent && r.parent[c] == n
      ensures !IsChild(c) ==> IsDocument(n)
    {
      if n == p {
        SplicedParentsAtFoster(t, r, p, node, pre, k, post, c);
      } else if n != node {
        SplicedParentsElsewhere(t, r, p, node, pre, k, post, n, c);
      }
    }
  }

  lemma SplicedParentsElsewhere(t: Tree, r: Tree, p: Node, node: Node, pre: seq<Node>, k: seq<Node>, post: seq<Node>, n: Node, c: Node)
    requires WellFormed(t) && Spliced(t, r, p, node, pre, k, post) && IsChild(node)
    requires n in t.kids && n != p && n != node && c in r.kids[n]
    ensures IsChild(c) ==> c in r.parent && r.parent[c] == n
    ensures !IsChild(c) ==> IsDocument(n)
  {
    SplicedFacts(t, r, p, node, pre, k, post);
    assert c in t.kids[n];
    assert c != node && c !in k;
  }

  lemma SplicedParentsAtFoster(t: Tree, r: Tree, p: Node, node: Node, pre: seq<Node>, k: seq<Node>, post: seq<Node>, c: Node)
    requires WellFormed(t) && Spliced(t, r, p, node, pre, k, post) && IsChild(node)
    requires c in r.kids[p]
    ensures IsChild(c) ==> c in r.parent && r.parent[c] == p
    ensures !IsChild(c) ==> IsDocument(p)
  {
    SplicedFacts(t, r, p, node, pre, k, post);
    if c !in k {
      assert c in pre + post;
      assert c in t.kids[p];
    }
  }

  lemma DistinctConcat(a: seq<Node>, b: seq<Node>, c: seq<Node>)
    requires Distinct(a) && Distinct(b) && Distinct(c)
    requires forall x | x in a :: x !in b && x !in c
    requires forall x | x in b :: x !in c
    ensures Distinct(a + b + c)
  {
    var s := a + b + c;
    forall x, y | 0 <= x < y < |s|
      ensures s[x] != s[y]
    {
      if y < |a| {
        assert s[x] == a[x] && s[y] == a[y];
      } else if x < |a| {
        assert s[x] == a[x] && a[x] in a;
        if y < |a| + |b| {
          assert s[y] == b[y - |a|] && b[y - |a|] in b;
        } else {
          assert s[y] == c[y - |a| - |b|] && c[y - |a| - |b|] in c;
        }
      } else if y < |a| + |b| {
        assert s[x] == b[x - |a|] && s[y] == b[y - |a|];
      } else if x < |a| + |b| {
        assert s[x] == b[x - |a|] && b[x - |a|] in b;
        assert s[y] == c[y - |a| - |b|] && c[y - |a| - |b|] in c;
      } else {
        assert s[x] == c[x - |a| - |b|] && s[y] == c[y - |a| - |b|];
      }
    }
  }

  /** Splicing keeps a snapshot well-formed. */
  lemma SplicedWellFormed(t: Tree, r: Tree, p: Node, node: Node, pre: seq<Node>, k: seq<Node>, post: seq<Node>)
    requires WellFormed(t) && Spliced(t, r, p, node, pre, k, post) && IsChild(node)
    ensures WellFormed(r)
  {
    SplicedFacts(t, r, p, node, pre, k, post);
    SplicedRanked(t, r, p, node, pre, k, post);
    SplicedParents(t, r, p, node, pre, k, post);
    forall x | x in pre
      ensures x !in k && x !in post
    {
      assert x in pre + post;
    }
    forall x | x in k
      ensures x !in post
    {
      assert x !in pre + post;
    }
    DistinctConcat(pre, k, post);
  }

  /** `removeNodeSaveChildren` keeps a snapshot well-formed. */
  lemma SaveChildrenWellFormed(t: Tree, node: Node)
    requires WellFormed(t) && Attached(t, node) && IsChild(node)
    ensures WellFormed(SaveChildrenT(t, node))
  {
    SaveChildrenShape(t, node);
    var p := t.parent[node];
    var s := t.kids[p];
    var i := IndexOf(s, node);
    SplicedWellFormed(t, SaveChildrenT(t, node), p, node, s[..i], t.kids[node], s[i + 1..]);
  }

  // ---- The pre-order walk after removeNodeSaveChildren ----

  /** Every walk not starting at the spliced node loses exactly that node. */
  lemma {:induction false} SplicedPreOrder(t: Tree, r: Tree, p: Node, node: Node, pre: seq<Node>, k: seq<Node>, post: seq<Node>, n: Node)
    requires WellFormed(t) && Spliced(t, r, p, node, pre, k, post) && IsChild(node) && Ranked(r)
    requires n != node
    ensures PreOrder(r, n) == Without(PreOrder(t, n), {node})
    decreases n.height, 2
  {
    if IsParent(n) && n in t.kids {
      if n == p {
        SplicedPreOrderAtFoster(t, r, p, node, pre, k, post);
      } else {
        assert r.kids[n] == t.kids[n];
        assert t.parent[node] == p && p != n;
        assert node !in t.kids[n];
        SplicedPreOrderList(t, r, p, node, pre, k, post, t.kids[n], n.height);
        WithoutAppend([n], PreOrderList(t, t.kids[n], n.height), {node});
      }
    }
  }

  /** The foster parent's walk: the node's own entry goes, its subtree's walk stays in place. */
  lemma {:induction false} SplicedPreOrderAtFoster(t: Tree, r: Tree, p: Node, node: Node, pre: seq<Node>, k: seq<Node>, post: seq<Node>)
    requires WellFormed(t) && Spliced(t, r, p, node, pre, k, post) && IsChild(node) && Ranked(r)
    ensures PreOrder(r, p) == Without(PreOrder(t, p), {node})
    decreases p.height, 1
  {
    SplicedFacts(t, r, p, node, pre, k, post);
    var b := p.height;
    FosterWalkBefore(t, r, p, node, pre, k, post);
    FosterWalkAfter(t, r, p, node, pre, k, post);
    SplicedPreOrderList(t, r, p, node, pre, k, post, pre, b);
    SplicedPreOrderList(t, r, p, node, pre, k, post, post, b);
    SplicedPreOrderList(t, r, p, node, pre, k, post, k, node.height);
    PreOrderListBound(r, k, b, node.height);
  }

  /** Taking one entry out of a walk laid out as parent, before, node and subtree, after. */
  lemma WithoutFosterWalk(p: Node, node: Node, a: seq<Node>, inner: seq<Node>, c: seq<Node>)
    requires p != node
    ensures Without([p] + (a + ([node] + inner) + c), {node})
            == [p] + Without(a, {node}) + Without(inner, {node}) + Without(c, {node})
  {
    WithoutAppend(a, [node] + inner, {node});
    WithoutAppend(a + ([node] + inner), c, {node});
    WithoutAppend([node], inner, {node});
    WithoutAppend([p], a + ([node] + inner) + c, {node});
  }

  /** The foster parent's walk before the splice, with the node taken out. */
  lemma FosterWalkBefore(t: Tree, r: Tree, p: Node, node: Node, pre: seq<Node>, k: seq<Node>, post: seq<Node>)
    requires WellFormed(t) && Spliced(t, r, p, node, pre, k, post) && IsChild(node)
    ensures node.height < p.height && forall c | c in k :: c.height < node.height
    ensures Without(PreOrder(t, p), {node})
            == [p] + Without(PreOrderList(t, pre, p.height), {node})
                   + Without(PreOrderList(t, k, node.height), {node})
                   + Without(PreOrderList(t, post, p.height), {node})
  {
    SplicedFacts(t, r, p, node, pre, k, post);
    var b := p.height;
    PreOrderListAppend(t, pre + [node], post, b);
    PreOrderListAppend(t, pre, [node], b);
    var inner := PreOrderList(t, k, node.height);
    assert PreOrder(t, node) == [node] + inner by {
      if !IsParent(node) {
        assert k == [];
      }
    }
    assert PreOrderList(t, [node], b) == [node] + inner;
    assert PreOrder(t, p) == [p] + (PreOrderList(t, pre, b) + ([node] + inner) + PreOrderList(t, post, b));
    WithoutFosterWalk(p, node, PreOrderList(t, pre, b), inner, PreOrderList(t, post, b));
  }

  /** The foster parent's walk after the splice. */
  lemma FosterWalkAfter(t: Tree, r: Tree, p: Node, node: Node, pre: seq<Node>, k: seq<Node>, post: seq<Node>)
    requires WellFormed(t) && Spliced(t, r, p, node, pre, k, post) && IsChild(node) && Ranked(r)
    ensures forall c | c in pre + k + post :: c.height < p.height
    ensures PreOrder(r, p) == [p] + PreOrderList(r, pre, p.height) + PreOrderList(r, k, p.height) + PreOrderList(r, post, p.height)
  {
    SplicedFacts(t, r, p, node, pre, k, post);
    var b := p.height;
    PreOrderListAppend(r, pre + k, post, b);
    PreOrderListAppend(r, pre, k, b);
  }

  lemma {:induction false} SplicedPreOrderList(t: Tree, r: Tree, p: Node, node: Node, pre: seq<Node>, k: seq<Node>, post: seq<Node>,
                                               cs: seq<Node>, bound: nat)
    requires WellFormed(t) && Spliced(t, r, p, node, pre, k, post) && IsChild(node) && Ranked(r)
    requires node !in cs && forall c | c in cs :: c.height < bound
    ensures PreOrderList(r, cs, bound) == Without(PreOrderList(t, cs, bound), {node})
    decreases bound, 0, |cs|
  {
    if cs != [] {
      SplicedPreOrder(t, r, p, node, pre, k, post, cs[0]);
      SplicedPreOrderList(t, r, p, node, pre, k, post, cs[1..], bound);
      WithoutAppend(PreOrder(t, cs[0]), PreOrderList(t, cs[1..], bound), {node});
    }
  }

  // ---- removeNodeSaveChildren as written ----

  /** The loop of `removeNodeSaveChildren`: `insertBefore(fosterParent, node, c)` for each `c` of `cs` in turn. */
  function InsertEachBefore(t: Tree, fp: Node, node: Node, cs: seq<Node>): (r: Tree)
    requires fp in t.kids && t.kids.Keys == t.parent.Keys
    requires forall c | c in cs :: c in t.kids
    ensures r.kids.Keys == t.kids.Keys && r.parent.Keys == t.parent.Keys
    decreases |cs|
  {
    if cs == [] then t
    else
      var before := InsertEachBefore(t, fp, node, cs[..|cs| - 1]);
      InsertBeforeT(before, fp, node, cs[|cs| - 1])
  }

  /**
   * `removeNodeSaveChildren` step by step: nothing for a node that is not a
   * child kind or has no parent; otherwise each child of a copy of the
   * child list is inserted before the node in the foster parent, and then
   * the node is removed.
   */
  function RemoveNodeSaveChildrenT(t: Tree, node: Node): (r: Tree)
    requires node in t.kids && t.kids.Keys == t.parent.Keys
    requires forall c | c in t.kids[node] :: c in t.kids
    requires t.parent[node] == null || t.parent[node] in t.kids
    ensures r.kids.Keys == t.kids.Keys && r.parent.Keys == t.parent.Keys
  {
    var fp := t.parent[node];
    if !IsChild(node) || fp == null then t
    else
      var moved := if IsParent(node) then InsertEachBefore(t, fp, node, t.kids[node]) else t;
      RemoveNodeT(moved, node)
  }

  /** After `j` rounds of the loop the first `j` children have moved. */
  lemma {:induction false} EachMoved(t: Tree, node: Node, j: nat)
    requires SaveReady(t, node) && j <= |SavedChildren(t, node)|
    ensures InsertEachBefore(t, t.parent[node], node, SavedChildren(t, node)[..j]) == MovedChildren(t, node, j)
  {
    if j == 0 {
      assert SavedChildren(t, node)[..0] == [];
      MovedNone(t, node);
    } else {
      EachMoved(t, node, j - 1);
      EachMovedStep(t, node, j - 1);
    }
  }

  lemma EachMovedStep(t: Tree, node: Node, j: nat)
    requires SaveReady(t, node) && j < |SavedChildren(t, node)|
    requires InsertEachBefore(t, t.parent[node], node, SavedChildren(t, node)[..j]) == MovedChildren(t, node, j)
    ensures InsertEachBefore(t, t.parent[node], node, SavedChildren(t, node)[..j + 1]) == MovedChildren(t, node, j + 1)
  {
    var k := SavedChildren(t, node);
    TakeOneMore(k, j);
    EachBeforeLast(t, t.parent[node], node, k[..j], k[j]);
    MovedStep(t, node, j);
  }

  lemma TakeOneMore(s: seq<Node>, j: nat)
    requires j < |s|
    ensures s[..j + 1] == s[..j] + [s[j]]
  {
  }

  /** One more round of the loop is one more `insertBefore`. */
  lemma EachBeforeLast(t: Tree, fp: Node, node: Node, cs: seq<Node>, c: Node)
    requires fp in t.kids && t.kids.Keys == t.parent.Keys
    requires forall x | x in cs :: x in t.kids
    requires c in t.kids
    ensures var m := InsertEachBefore(t, fp, node, cs);
            var r := InsertEachBefore(t, fp, node, cs + [c]);
            r.kids == InsertBeforeT(m, fp, node, c).kids && r.parent == InsertBeforeT(m, fp, node, c).parent
  {
    assert (cs + [c])[..|cs|] == cs;
  }

  /**
   * On an attached child-kind node of a well-formed snapshot the loop and the
   * final `removeNode` have exactly the outcome `SaveChildrenT` describes.
   */
  lemma RemoveNodeSaveChildrenAttached(t: Tree, node: Node)
    requires WellFormed(t) && Attached(t, node) && IsChild(node)
    ensures node in t.kids && forall c | c in t.kids[node] :: c in t.kids
    ensures RemoveNodeSaveChildrenT(t, node) == SaveChildrenT(t, node)
  {
    AttachedFacts(t, node);
    var k := SavedChildren(t, node);
    var p := t.parent[node];
    if IsParent(node) {
      EachMoved(t, node, |k|);
      assert k[..|k|] == k;
    } else {
      MovedNone(t, node);
    }
    MovedAll(t, node);
    var r := RemoveNodeSaveChildrenT(t, node);
    assert r == Tree(r.kids, r.parent);
  }

  /**
   * What `removeNodeSaveChildren` promises a walk: the snapshot stays
   * well-formed, the node is left detached and empty, and the walk from any
   * other node is the old walk with just that node missing.
   */
  lemma SaveChildrenPreOrder(t: Tree, node: Node, n: Node)
    requires WellFormed(t) && Attached(t, node) && IsChild(node) && n != node
    ensures WellFormed(SaveChildrenT(t, node))
    ensures SaveChildrenT(t, node).parent[node] == null && SaveChildrenT(t, node).kids[node] == []
    ensures PreOrder(SaveChildrenT(t, node), n) == Without(PreOrder(t, n), {node})
  {
    SaveChildrenShape(t, node);
    var r := SaveChildrenT(t, node);
    var p := t.parent[node];
    var s := t.kids[p];
    var i := IndexOf(s, node);
    SplicedWellFormed(t, r, p, node, s[..i], t.kids[node], s[i + 1..]);
    SplicedPreOrder(t, r, p, node, s[..i], t.kids[node], s[i + 1..], n);
  }

  lemma RemoveNodeSaveChildrenMeaning(t: Tree, node: Node)
    requires Closed(t) && node in t.kids
    ensures WellFormed(t) && Attached(t, node) && IsChild(node) ==> RemoveNodeSaveChildrenT(t, node) == SaveChildrenT(t, node)
  {
    if WellFormed(t) && Attached(t, node) && IsChild(node) {
      RemoveNodeSaveChildrenAttached(t, node);
    }
  }

  lemma {:induction false} InsertEachBeforeClosed(t: Tree, fp: Node, node: Node, cs: seq<Node>)
    requires Closed(t) && fp in t.kids && forall c | c in cs :: c in t.kids
    ensures Closed(InsertEachBefore(t, fp, node, cs))
    decreases |cs|
  {
    if cs != [] {
      var before := InsertEachBefore(t, fp, node, cs[..|cs| - 1]);
      InsertEachBeforeClosed(t, fp, node, cs[..|cs| - 1]);
      InsertBeforeClosed(before, fp, node, cs[|cs| - 1]);
    }
  }

  /** `removeNodeSaveChildren` keeps every child list and parent link inside the snapshot. */
  lemma RemoveNodeSaveChildrenClosed(t: Tree, node: Node)
    requires Closed(t) && node in t.kids
    ensures Closed(RemoveNodeSaveChildrenT(t, node))
  {
    var fp := t.parent[node];
    if IsChild(node) && fp != null {
      if IsParent(node) {
        InsertEachBeforeClosed(t, fp, node, t.kids[node]);
        RemoveNodeClosed(InsertEachBefore(t, fp, node, t.kids[node]), node);
      } else {
        RemoveNodeClosed(t, node);
      }
    }
  }

  /** A node without a parent other than the one removed stays without one. */
  lemma SaveChildrenKeepsOrphans(t: Tree, node: Node, m: Node)
    requires WellFormed(t) && Attached(t, node) && IsChild(node)
    requires m in t.parent && m != node && t.parent[m] == null
    ensures SaveChildrenT(t, node).parent[m] == null
  {
    SaveChildrenShape(t, node);
    AttachedFacts(t, node);
  }

  /**
   * Every node a walk reaches below its start is a snapshot node, and, when
   * it is a child kind, sits in the list of the node its `parentNode` names.
   */
  lemma {:induction false} InPreOrderAttached(t: Tree, n: Node, x: Node)
    requires WellFormed(t) && x in PreOrder(t, n) && x != n
    ensures x in t.kids && (IsChild(x) ==> Attached(t, x))
    decreases n.height, 1
  {
    InPreOrderListAttached(t, t.kids[n], n.height, x);
  }

  lemma {:induction false} InPreOrderListAttached(t: Tree, cs: seq<Node>, bound: nat, x: Node)
    requires WellFormed(t) && (forall c | c in cs :: c.height < bound && c in t.kids)
    requires (forall c | c in cs :: IsChild(c) ==> Attached(t, c))
    requires x in PreOrderList(t, cs, bound)
    ensures x in t.kids && (IsChild(x) ==> Attached(t, x))
    decreases bound, 0, |cs|
  {
    if x in PreOrder(t, cs[0]) {
      if x != cs[0] {
        InPreOrderAttached(t, cs[0], x);
      }
    } else {
      InPreOrderListAttached(t, cs[1..], bound, x);
    }
  }
}
