/**
 * `removeFakeRootElements` (src/support/parse5-utils.ts): parse5 wraps a
 * parsed document in `<html>`, `<head>` and `<body>` elements even when the
 * markup has none; such elements carry no source location. The toolkit
 * collects them in one walk and dissolves each with
 * `removeNodeSaveChildren`.
 */
module Parse5FakeRoots {
  import opened Parse5Tree
  import opened Parse5Mutations
  import opened Parse5SaveChildren

  // ---- Which elements are fake roots ----

  /** Folding an ASCII capital to lower case; no other character folds onto an ASCII letter under `/i`. */
  function LowerAscii(c: char): char
  {
    if 'A' <= c <= 'Z' then (c as int + 32) as char else c
  }

  /** Equal under `/i` without the `u` flag, against a lower-case ASCII pattern. */
  predicate SameIgnoringAsciiCase(s: string, pattern: string)
  {
    |s| == |pattern| && forall i | 0 <= i < |s| :: LowerAscii(s[i]) == pattern[i]
  }

  /** `nodeName.match(/^(html|head|body)$/i)`. */
  predicate IsFakeRootName(name: string)
  {
    SameIgnoringAsciiCase(name, "html") || SameIgnoringAsciiCase(name, "head") || SameIgnoringAsciiCase(name, "body")
  }

  /** The element parse5 added rather than read: a root name and no `sourceCodeLocation`. */
  predicate IsFakeRoot(n: Node)
  {
    IsFakeRootName(n.nodeName) && !n.hasSourceLocation
  }

  /** A fake root is an element, so a child kind. */
  lemma FakeRootIsElement(n: Node)
    requires IsFakeRoot(n)
    ensures IsElement(n) && IsChild(n)
  {
    assert LowerAscii(n.nodeName[0]) in {'h', 'b'};
  }

  // ---- Collecting them ----

  /**
   * The list the walk builds: each match is `unshift`ed, so the list holds
   * the fake roots of `walk` with the last one met first.
   */
  function FakeRoots(walk: seq<Node>): (r: seq<Node>)
    ensures forall x | x in r :: x in walk && IsFakeRoot(x)
    ensures forall x | x in walk && IsFakeRoot(x) :: x in r
  {
    if walk == [] then []
    else FakeRoots(walk[1..]) + (if IsFakeRoot(walk[0]) then [walk[0]] else [])
  }

  /** Deepest-last-first: whatever the walk meets later is handled earlier. */
  lemma {:induction false} FakeRootsAppend(a: seq<Node>, b: seq<Node>)
    ensures FakeRoots(a + b) == FakeRoots(b) + FakeRoots(a)
  {
    if a == [] {
      assert a + b == b;
    } else {
      assert (a + b)[1..] == a[1..] + b;
      FakeRootsAppend(a[1..], b);
    }
  }

  // ---- Dissolving them ----

  /** `fakeRootElements.forEach(removeNodeSaveChildren)`. */
  function RemoveEachSaveChildren(t: Tree, xs: seq<Node>): (r: Tree)
    requires Closed(t) && forall x | x in xs :: x in t.kids
    ensures Closed(r) && r.kids.Keys == t.kids.Keys
    decreases |xs|
  {
    if xs == [] then t
    else
      RemoveNodeSaveChildrenClosed(t, xs[0]);
      RemoveEachSaveChildren(RemoveNodeSaveChildrenT(t, xs[0]), xs[1..])
  }

  /** One more round of the `forEach`. */
  lemma {:induction false} RemoveEachSnoc(t: Tree, xs: seq<Node>, x: Node)
    requires Closed(t) && (forall y | y in xs :: y in t.kids) && x in t.kids
    ensures RemoveEachSaveChildren(t, xs + [x]) == RemoveNodeSaveChildrenT(RemoveEachSaveChildren(t, xs), x)
    decreases |xs|
  {
    if xs == [] {
      assert xs + [x] == [x] && [x][1..] == [];
    } else {
      assert (xs + [x])[0] == xs[0] && (xs + [x])[1..] == xs[1..] + [x];
      RemoveNodeSaveChildrenClosed(t, xs[0]);
      RemoveEachSnoc(RemoveNodeSaveChildrenT(t, xs[0]), xs[1..], x);
    }
  }

  /** `removeFakeRootElements` on the snapshot: collect along the walk from `root`, then dissolve in list order. */
  function RemoveFakeRootElementsT(t: Tree, root: Node): (r: Tree)
    requires Closed(t) && Ranked(t) && root in t.kids
    ensures Closed(r) && r.kids.Keys == t.kids.Keys
  {
    PreOrderInside(t, root);
    RemoveEachSaveChildren(t, FakeRoots(PreOrder(t, root)))
  }

  /**
   * What holds between two rounds of the `forEach`: the snapshot is
   * well-formed and closed, the walk from the parentless `root` is the
   * original walk without the nodes of `g` dissolved so far, and those are
   * detached.
   */
  ghost predicate Dissolved(t: Tree, root: Node, walk0: seq<Node>, g: set<Node>)
  {
    && WellFormed(t) && Closed(t) && root in t.kids && t.parent[root] == null && root !in g
    && PreOrder(t, root) == Without(walk0, g)
    && (forall y | y in g :: y in t.parent && t.parent[y] == null)
  }

  /** One round on a node already detached (dissolved before, or the root): nothing changes. */
  lemma DissolveDetached(t: Tree, root: Node, walk0: seq<Node>, g: set<Node>, x: Node)
    requires Dissolved(t, root, walk0, g) && x in t.kids && (x == root || x in g)
    ensures RemoveNodeSaveChildrenT(t, x) == t
  {
  }

  /** One round on a node still in the walk: it leaves the walk and is detached. */
  lemma DissolveAttached(t: Tree, root: Node, walk0: seq<Node>, g: set<Node>, x: Node)
    requires Dissolved(t, root, walk0, g) && x in walk0 && x in t.kids && IsChild(x)
    requires x != root && x !in g
    ensures Dissolved(RemoveNodeSaveChildrenT(t, x), root, walk0, g + {x})
  {
    WithoutMembers(walk0, g, x);
    InPreOrderAttached(t, root, x);
    RemoveNodeSaveChildrenAttached(t, x);
    RemoveNodeSaveChildrenClosed(t, x);
    var t' := RemoveNodeSaveChildrenT(t, x);
    SaveChildrenPreOrder(t, x, root);
    WithoutUnion(walk0, g, {x});
    SaveChildrenKeepsOrphans(t, x, root);
    forall y | y in g
      ensures t'.parent[y] == null
    {
      SaveChildrenKeepsOrphans(t, x, y);
    }
  }

  /** The nodes of `xs` other than `root`. */
  function Dropped(xs: seq<Node>, root: Node): (r: set<Node>)
    ensures forall x | x in r :: x in xs && x != root
    ensures forall x | x in xs && x != root :: x in r
  {
    if xs == [] then {} else (if xs[0] == root then {} else {xs[0]}) + Dropped(xs[1..], root)
  }

  lemma DroppedStep(g: set<Node>, xs: seq<Node>, root: Node)
    requires xs != []
    ensures var x := xs[0];
            (if x == root || x in g then g else g + {x}) + Dropped(xs[1..], root) == g + Dropped(xs, root)
  {
  }

  /**
   * Dissolving child-kind nodes met by the walk, one after another, keeps
   * the snapshot well-formed and takes exactly those nodes out of the walk.
   */
  lemma {:induction false} RemoveEachKeepsWalk(t: Tree, root: Node, walk0: seq<Node>, g: set<Node>, xs: seq<Node>)
    requires Dissolved(t, root, walk0, g)
    requires forall x | x in xs :: x in walk0 && x in t.kids && IsChild(x)
    ensures Dissolved(RemoveEachSaveChildren(t, xs), root, walk0, g + Dropped(xs, root))
    decreases |xs|
  {
    if xs == [] {
      assert g + Dropped(xs, root) == g;
    } else {
      var x := xs[0];
      var g' := if x == root || x in g then g else g + {x};
      if x == root || x in g {
        DissolveDetached(t, root, walk0, g, x);
      } else {
        DissolveAttached(t, root, walk0, g, x);
      }
      var t' := RemoveNodeSaveChildrenT(t, x);
      RemoveEachKeepsWalk(t', root, walk0, g', xs[1..]);
      DroppedStep(g, xs, root);
      assert RemoveEachSaveChildren(t, xs) == RemoveEachSaveChildren(t', xs[1..]);
    }
  }

  /**
   * `removeFakeRootElements` on a parentless root: the snapshot stays
   * well-formed, the walk from the root is the old walk with exactly the fake
   * roots below the root taken out, in the old order, and none is left.
   */
  lemma RemoveFakeRootElementsWalk(t: Tree, root: Node)
    requires WellFormed(t) && Closed(t) && root in t.kids && t.parent[root] == null
    ensures WellFormed(RemoveFakeRootElementsT(t, root))
    ensures var walk := PreOrder(t, root);
            PreOrder(RemoveFakeRootElementsT(t, root), root) == Without(walk, FakeRootsBelow(walk, root))
    ensures forall x | x in PreOrder(RemoveFakeRootElementsT(t, root), root) :: x == root || !IsFakeRoot(x)
  {
    var walk := PreOrder(t, root);
    var fakes := FakeRoots(walk);
    PreOrderInside(t, root);
    forall x | x in fakes
      ensures x in walk && x in t.kids && IsChild(x)
    {
      FakeRootIsElement(x);
    }
    WithoutNothing(walk, {});
    RemoveEachKeepsWalk(t, root, walk, {}, fakes);
    var gone := FakeRootsBelow(walk, root);
    assert {} + Dropped(fakes, root) == gone;
    var r := RemoveFakeRootElementsT(t, root);
    forall x | x in PreOrder(r, root)
      ensures x == root || !IsFakeRoot(x)
    {
      WithoutMembers(walk, gone, x);
    }
  }

  /** The fake roots a walk from `root` meets, other than `root` itself. */
  function FakeRootsBelow(walk: seq<Node>, root: Node): (r: set<Node>)
    ensures forall x | x in r :: x in walk && x != root && IsFakeRoot(x)
    ensures forall x | x in walk && x != root && IsFakeRoot(x) :: x in r
  {
    set x | x in walk && x != root && IsFakeRoot(x)
  }
}
