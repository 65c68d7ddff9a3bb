/**
 * The part of a Babel syntax tree that the module-specifier rewriters
 * (src/transform-js-module.ts, src/transform-javascript-module.ts) look at.
 *
 * A tree `Js<L>` carries `L` at its string literals. The parser's output is
 * a `Js<string>`; once parsed, every string literal is a mutable cell, so the
 * rewriters work on a `Js<nat>` whose literals are cell numbers, handed out
 * in pre-order by `Shape`, and on an array holding the cells' values.
 * `Fill` reads the tree back for the serializer.
 */
module JsAst {
  import opened Wrappers

  datatype Js<L> =
    | StringLiteral(value: L)
    | Import                                          // the callee of a dynamic `import(...)`
    | ImportDeclaration(source: Js<L>)
    | ExportAllDeclaration(source: Js<L>)
    // `export ... from source`, or a local `export` when `namedSource` is None.
    // By design the node carries no declaration or specifier child: the
    // visitors read only the source. A declaration that holds code the walk
    // must reach (a dynamic `import(...)`) is given by the parser as a
    // sibling subtree under `Other`, not under this node.
    | ExportNamedDeclaration(namedSource: Option<Js<L>>)
    | CallExpression(callee: Js<L>, args: seq<Js<L>>)
    | Other(children: seq<Js<L>>)

  /** Babel's traversal: a node, then its children left to right (callee before arguments). */
  function Walk<L>(n: Js<L>): seq<Js<L>>
    decreases n
  {
    [n] + match n
      case StringLiteral(_) => []
      case Import => []
      case ImportDeclaration(s) => Walk(s)
      case ExportAllDeclaration(s) => Walk(s)
      case ExportNamedDeclaration(s) => if s.Some? then Walk(s.value) else []
      case CallExpression(c, xs) => Walk(c) + WalkList(xs)
      case Other(cs) => WalkList(cs)
  }

  /** The traversal of a program: Babel visits what lies below the root, statement by statement. */
  function WalkList<L>(cs: seq<Js<L>>): seq<Js<L>>
    decreases cs
  {
    if cs == [] then [] else Walk(cs[0]) + WalkList(cs[1..])
  }

  /**
   * The literal the rewriters' `enter` visitors rewrite at node `n`: the
   * source of an import, export-all or export-named declaration when that
   * source is a string literal, and the argument of an `import(...)` call
   * with exactly one argument when that argument is a string literal.
   */
  function Slot<L>(n: Js<L>): (r: Option<L>)
    ensures r.Some? ==> Lits(n) == [r.value]
  {
    match n
    case ImportDeclaration(StringLiteral(v)) => Some(v)
    case ExportAllDeclaration(StringLiteral(v)) => Some(v)
    case ExportNamedDeclaration(Some(StringLiteral(v))) => Some(v)
    case CallExpression(Import, xs) =>
      if |xs| == 1 && xs[0].StringLiteral? then
        assert LitsList(xs) == Lits(xs[0]) + LitsList(xs[1..]);
        Some(xs[0].value)
      else None
    case _ => None
  }

  function Here<L>(n: Js<L>): seq<L>
  {
    if Slot(n).Some? then [Slot(n).value] else []
  }

  /** The rewritten literals of a tree, in the order the traversal meets them. */
  function Slots<L>(n: Js<L>): seq<L>
    decreases n, 1
  {
    Here(n) + SlotsBelow(n)
  }

  /** The rewritten literals below the node itself. */
  function SlotsBelow<L>(n: Js<L>): seq<L>
    decreases n, 0
  {
    match n
    case StringLiteral(_) => []
    case Import => []
    case ImportDeclaration(s) => Slots(s)
    case ExportAllDeclaration(s) => Slots(s)
    case ExportNamedDeclaration(s) => if s.Some? then Slots(s.value) else []
    case CallExpression(c, xs) => Slots(c) + SlotsList(xs)
    case Other(cs) => SlotsList(cs)
  }

  function SlotsList<L>(cs: seq<Js<L>>): seq<L>
    decreases cs
  {
    if cs == [] then [] else Slots(cs[0]) + SlotsList(cs[1..])
  }

  /** Every string literal of a tree, in pre-order. */
  function Lits<L>(n: Js<L>): seq<L>
    decreases n
  {
    match n
    case StringLiteral(v) => [v]
    case Import => []
    case ImportDeclaration(s) => Lits(s)
    case ExportAllDeclaration(s) => Lits(s)
    case ExportNamedDeclaration(s) => if s.Some? then Lits(s.value) else []
    case CallExpression(c, xs) => Lits(c) + LitsList(xs)
    case Other(cs) => LitsList(cs)
  }

  function LitsList<L>(cs: seq<Js<L>>): seq<L>
    decreases cs
  {
    if cs == [] then [] else Lits(cs[0]) + LitsList(cs[1..])
  }

  /** The slots met along a list of visited nodes. */
  function SlotsIn<L>(walk: seq<Js<L>>): seq<L>
  {
    if walk == [] then [] else SlotsIn(walk[..|walk| - 1]) + Here(walk[|walk| - 1])
  }

  lemma {:induction false} SlotsInAppend<L>(a: seq<Js<L>>, b: seq<Js<L>>)
    ensures SlotsIn(a + b) == SlotsIn(a) + SlotsIn(b)
    decreases |b|
  {
    if b != [] {
      var b' := b[..|b| - 1];
      assert (a + b)[..|a + b| - 1] == a + b';
      SlotsInAppend(a, b');
    } else {
      assert a + b == a;
    }
  }

  /** The traversal meets exactly the slots `Slots` lists, in that order. */
  lemma {:induction false} SlotsOfWalk<L>(n: Js<L>)
    ensures SlotsIn(Walk(n)) == Slots(n)
    decreases n
  {
    assert SlotsIn([n]) == Here(n) by {
      assert [n][..0] == [];
    }
    match n
    case StringLiteral(_) =>
      assert Walk(n) == [n];
    case Import =>
      assert Walk(n) == [n];
    case ImportDeclaration(s) =>
      SlotsOfWalk(s);
      SlotsInAppend([n], Walk(s));
      assert Walk(n) == [n] + Walk(s) && Slots(n) == Here(n) + Slots(s);
    case ExportAllDeclaration(s) =>
      SlotsOfWalk(s);
      SlotsInAppend([n], Walk(s));
      assert Walk(n) == [n] + Walk(s) && Slots(n) == Here(n) + Slots(s);
    case ExportNamedDeclaration(s) =>
      if s.Some? {
        SlotsOfWalk(s.value);
        SlotsInAppend([n], Walk(s.value));
        assert Walk(n) == [n] + Walk(s.value) && Slots(n) == Here(n) + Slots(s.value);
      } else {
        assert Walk(n) == [n];
      }
    case CallExpression(c, xs) =>
      SlotsOfWalk(c);
      SlotsOfWalkList(xs);
      SlotsInAppend(Walk(c), WalkList(xs));
      SlotsInAppend([n], Walk(c) + WalkList(xs));
      assert Walk(n) == [n] + (Walk(c) + WalkList(xs)) && Slots(n) == Here(n) + (Slots(c) + SlotsList(xs));
    case Other(cs) =>
      SlotsOfWalkList(cs);
      SlotsInAppend([n], WalkList(cs));
      assert Walk(n) == [n] + WalkList(cs) && Slots(n) == Here(n) + SlotsList(cs);
  }

  lemma {:induction false} SlotsOfWalkList<L>(cs: seq<Js<L>>)
    ensures SlotsIn(WalkList(cs)) == SlotsList(cs)
    decreases cs
  {
    if cs != [] {
      SlotsOfWalk(cs[0]);
      SlotsOfWalkList(cs[1..]);
      SlotsInAppend(Walk(cs[0]), WalkList(cs[1..]));
    }
  }

  // ---- Cells ----

  /** `count` consecutive numbers from `from`. */
  function Iota(from: nat, count: nat): (r: seq<nat>)
    ensures |r| == count && forall i | 0 <= i < count :: r[i] == from + i
    decreases count
  {
    if count == 0 then [] else [from] + Iota(from + 1, count - 1)
  }

  lemma IotaSplit(from: nat, m: nat, n: nat)
    ensures Iota(from, m + n) == Iota(from, m) + Iota(from + m, n)
  {
  }

  /** The parsed tree with its literals numbered in pre-order from `next`. */
  function Shape(n: Js<string>, next: nat): Js<nat>
    decreases n
  {
    match n
    case StringLiteral(_) => StringLiteral(next)
    case Import => Import
    case ImportDeclaration(s) => ImportDeclaration(Shape(s, next))
    case ExportAllDeclaration(s) => ExportAllDeclaration(Shape(s, next))
    case ExportNamedDeclaration(s) =>
      if s.Some? then ExportNamedDeclaration(Some(Shape(s.value, next))) else ExportNamedDeclaration(None)
    case CallExpression(c, xs) => CallExpression(Shape(c, next), ShapeList(xs, next + |Lits(c)|))
    case Other(cs) => Other(ShapeList(cs, next))
  }

  function ShapeList(cs: seq<Js<string>>, next: nat): seq<Js<nat>>
    decreases cs
  {
    if cs == [] then [] else [Shape(cs[0], next)] + ShapeList(cs[1..], next + |Lits(cs[0])|)
  }

  /** The numbering hands out `next`, `next + 1`, ... to the literals in pre-order. */
  lemma {:induction false} ShapeLits(n: Js<string>, next: nat)
    ensures Lits(Shape(n, next)) == Iota(next, |Lits(n)|)
    decreases n
  {
    match n
    case StringLiteral(_) =>
      assert Iota(next, 1) == [next] + Iota(next + 1, 0);
    case Import =>
    case ImportDeclaration(s) => ShapeLits(s, next);
    case ExportAllDeclaration(s) => ShapeLits(s, next);
    case ExportNamedDeclaration(s) =>
      if s.Some? {
        ShapeLits(s.value, next);
      }
    case CallExpression(c, xs) =>
      ShapeLits(c, next);
      ShapeListLits(xs, next + |Lits(c)|);
      IotaSplit(next, |Lits(c)|, |LitsList(xs)|);
      ShapeCall(n, next);
    case Other(cs) => ShapeListLits(cs, next);
  }

  lemma {:induction false} ShapeListLits(cs: seq<Js<string>>, next: nat)
    ensures LitsList(ShapeList(cs, next)) == Iota(next, |LitsList(cs)|)
    decreases cs
  {
    if cs != [] {
      var m := next + |Lits(cs[0])|;
      ShapeLits(cs[0], next);
      ShapeListLits(cs[1..], m);
      IotaSplit(next, |Lits(cs[0])|, |LitsList(cs[1..])|);
      ShapeListCons(cs, next);
      var r := ShapeList(cs, next);
      assert LitsList(r) == Lits(r[0]) + LitsList(r[1..]);
    }
  }

  /** Every literal of `n` names one of `count` cells. */
  predicate Within(n: Js<nat>, count: nat)
  {
    forall k | k in Lits(n) :: k < count
  }

  predicate WithinList(cs: seq<Js<nat>>, count: nat)
  {
    forall k | k in LitsList(cs) :: k < count
  }

  /** The tree as the serializer sees it: each literal holds its cell's value. */
  function Fill(n: Js<nat>, cells: seq<string>): (r: Js<string>)
    requires Within(n, |cells|)
    decreases n
  {
    match n
    case StringLiteral(k) =>
      assert k in Lits(n);
      StringLiteral(cells[k])
    case Import => Import
    case ImportDeclaration(s) =>
      assert Lits(n) == Lits(s);
      ImportDeclaration(Fill(s, cells))
    case ExportAllDeclaration(s) =>
      assert Lits(n) == Lits(s);
      ExportAllDeclaration(Fill(s, cells))
    case ExportNamedDeclaration(s) =>
      if s.Some? then
        assert Lits(n) == Lits(s.value);
        ExportNamedDeclaration(Some(Fill(s.value, cells)))
      else ExportNamedDeclaration(None)
    case CallExpression(c, xs) =>
      assert Lits(n) == Lits(c) + LitsList(xs);
      assert forall k | k in Lits(c) :: k in Lits(n);
      assert forall k | k in LitsList(xs) :: k in Lits(n);
      CallExpression(Fill(c, cells), FillList(xs, cells))
    case Other(cs) =>
      assert Lits(n) == LitsList(cs);
      Other(FillList(cs, cells))
  }

  function FillList(cs: seq<Js<nat>>, cells: seq<string>): (r: seq<Js<string>>)
    requires WithinList(cs, |cells|)
    decreases cs
  {
    if cs == [] then []
    else
      assert LitsList(cs) == Lits(cs[0]) + LitsList(cs[1..]);
      assert forall k | k in Lits(cs[0]) :: k in LitsList(cs);
      assert forall k | k in LitsList(cs[1..]) :: k in LitsList(cs);
      [Fill(cs[0], cells)] + FillList(cs[1..], cells)
  }

  /** Reading back cells that still hold the parsed literals gives back the parsed tree. */
  lemma {:induction false} ShapeFill(n: Js<string>, next: nat, cells: seq<string>)
    requires next + |Lits(n)| <= |cells| && cells[next..next + |Lits(n)|] == Lits(n)
    ensures Within(Shape(n, next), |cells|) && Fill(Shape(n, next), cells) == n
    decreases n
  {
    ShapeWithin(n, next, |cells|);
    match n
    case StringLiteral(v) =>
      assert cells[next] == cells[next..next + 1][0];
    case Import =>
    case ImportDeclaration(s) => ShapeFill(s, next, cells);
    case ExportAllDeclaration(s) => ShapeFill(s, next, cells);
    case ExportNamedDeclaration(s) =>
      if s.Some? {
        ShapeFill(s.value, next, cells);
      }
    case CallExpression(c, xs) =>
      var m := next + |Lits(c)|;
      assert Lits(n) == Lits(c) + LitsList(xs);
      SplitCells(cells, next, Lits(c), LitsList(xs));
      ShapeFill(c, next, cells);
      ShapeFillList(xs, m, cells);
      ShapeCall(n, next);
    case Other(cs) => ShapeFillList(cs, next, cells);
  }

  lemma ShapeCall(n: Js<string>, next: nat)
    requires n.CallExpression?
    ensures Shape(n, next) == CallExpression(Shape(n.callee, next), ShapeList(n.args, next + |Lits(n.callee)|))
  {
  }

  lemma ShapeListCons(cs: seq<Js<string>>, next: nat)
    requires cs != []
    ensures var r := ShapeList(cs, next);
            r != [] && r[0] == Shape(cs[0], next) && r[1..] == ShapeList(cs[1..], next + |Lits(cs[0])|)
  {
    var r := ShapeList(cs, next);
    assert r == [Shape(cs[0], next)] + ShapeList(cs[1..], next + |Lits(cs[0])|);
  }

  /** Cells holding two runs of literals one after the other hold each run in its place. */
  lemma SplitCells(cells: seq<string>, next: nat, a: seq<string>, b: seq<string>)
    requires next + |a| + |b| <= |cells| && cells[next..next + |a + b|] == a + b
    ensures cells[next..next + |a|] == a && cells[next + |a|..next + |a| + |b|] == b
  {
    var w := cells[next..next + |a + b|];
    assert cells[next..next + |a|] == w[..|a|];
    assert cells[next + |a|..next + |a| + |b|] == w[|a|..];
  }

  /** Numbering from `next` stays below any bound that leaves room for every literal. */
  lemma ShapeWithin(n: Js<string>, next: nat, count: nat)
    requires next + |Lits(n)| <= count
    ensures Within(Shape(n, next), count)
  {
    ShapeLits(n, next);
    var lits := Lits(Shape(n, next));
    forall k | k in lits
      ensures k < count
    {
      var i :| 0 <= i < |lits| && lits[i] == k;
    }
  }

  lemma ShapeWithinList(cs: seq<Js<string>>, next: nat, count: nat)
    requires next + |LitsList(cs)| <= count
    ensures WithinList(ShapeList(cs, next), count)
  {
    ShapeListLits(cs, next);
    var lits := LitsList(ShapeList(cs, next));
    forall k | k in lits
      ensures k < count
    {
      var i :| 0 <= i < |lits| && lits[i] == k;
    }
  }

  lemma {:induction false} ShapeFillList(cs: seq<Js<string>>, next: nat, cells: seq<string>)
    requires next + |LitsList(cs)| <= |cells| && cells[next..next + |LitsList(cs)|] == LitsList(cs)
    ensures WithinList(ShapeList(cs, next), |cells|) && FillList(ShapeList(cs, next), cells) == cs
    decreases cs
  {
    ShapeWithinList(cs, next, |cells|);
    if cs != [] {
      var m := next + |Lits(cs[0])|;
      assert LitsList(cs) == Lits(cs[0]) + LitsList(cs[1..]);
      SplitCells(cells, next, Lits(cs[0]), LitsList(cs[1..]));
      ShapeFill(cs[0], next, cells);
      ShapeFillList(cs[1..], m, cells);
      ShapeListCons(cs, next);
    }
  }

  /**
   * A freshly parsed program with its literals numbered `0 .. n-1`: the
   * numbered tree reads back as the program, and its slots are distinct
   * cells, all of them allocated.
   */
  lemma ShapedProgram(body: seq<Js<string>>)
    ensures var shape := ShapeList(body, 0);
            var lits := LitsList(body);
            && WithinList(shape, |lits|) && FillList(shape, lits) == body
            && Increasing(SlotsList(shape)) && Bounded(SlotsList(shape), |lits|)
  {
    var lits := LitsList(body);
    var shape := ShapeList(body, 0);
    assert lits[0..0 + |lits|] == lits;
    ShapeFillList(body, 0, lits);
    ShapeListLits(body, 0);
    SlotsListIncreasing(shape);
    SlotsWithinList(shape, |lits|);
  }

  // ---- Slots are distinct cells ----

  predicate Increasing(s: seq<nat>)
  {
    forall i, j | 0 <= i < j < |s| :: s[i] < s[j]
  }

  lemma IncreasingSplit(a: seq<nat>, b: seq<nat>)
    requires Increasing(a + b)
    ensures Increasing(a) && Increasing(b)
    ensures forall x, y | x in a && y in b :: x < y
  {
    forall x, y | x in a && y in b
      ensures x < y
    {
      var i :| 0 <= i < |a| && a[i] == x;
      var j :| 0 <= j < |b| && b[j] == y;
      assert (a + b)[i] == x && (a + b)[|a| + j] == y;
    }
    forall i, j | 0 <= i < j < |a|
      ensures a[i] < a[j]
    {
      assert (a + b)[i] == a[i] && (a + b)[j] == a[j];
    }
    forall i, j | 0 <= i < j < |b|
      ensures b[i] < b[j]
    {
      assert (a + b)[|a| + i] == b[i] && (a + b)[|a| + j] == b[j];
    }
  }

  lemma IncreasingJoin(a: seq<nat>, b: seq<nat>)
    requires Increasing(a) && Increasing(b)
    requires forall x, y | x in a && y in b :: x < y
    ensures Increasing(a + b)
  {
    forall i, j | 0 <= i < j < |a + b|
      ensures (a + b)[i] < (a + b)[j]
    {
      if j < |a| {
      } else if i < |a| {
        assert (a + b)[i] in a && (a + b)[j] in b;
      } else {
        assert (a + b)[i] == b[i - |a|] && (a + b)[j] == b[j - |a|];
      }
    }
  }

  /**
   * When the literals are numbered in increasing order, the slots are too,
   * and each is one of the tree's literals: no cell is rewritten twice.
   */
  lemma {:induction false} SlotsIncreasing(n: Js<nat>)
    requires Increasing(Lits(n))
    ensures Increasing(Slots(n)) && forall k | k in Slots(n) :: k in Lits(n)
    decreases n
  {
    if Slot(n).Some? {
      SlotIsAll(n);
    } else {
      match n
      case StringLiteral(_) =>
      case Import =>
      case ImportDeclaration(s) => SlotsIncreasing(s);
      case ExportAllDeclaration(s) => SlotsIncreasing(s);
      case ExportNamedDeclaration(s) =>
        if s.Some? {
          SlotsIncreasing(s.value);
        }
      case CallExpression(c, xs) =>
        IncreasingSplit(Lits(c), LitsList(xs));
        SlotsIncreasing(c);
        SlotsListIncreasing(xs);
        IncreasingJoin(Slots(c), SlotsList(xs));
      case Other(cs) => SlotsListIncreasing(cs);
    }
  }

  /** A node with a slot holds no other literal. */
  lemma SlotIsAll<L>(n: Js<L>)
    requires Slot(n).Some?
    ensures Slots(n) == Lits(n)
  {
    match n
    case CallExpression(c, xs) =>
      assert Slot(n) == if c == Import && |xs| == 1 && xs[0].StringLiteral? then Some(xs[0].value) else None;
      assert c == Import && xs[1..] == [];
      assert Here(c) == [] && SlotsBelow(c) == [] && Here(xs[0]) == [] && SlotsBelow(xs[0]) == [];
      assert Slots(xs[0]) == [] && Slots(c) == [];
      assert SlotsList(xs) == Slots(xs[0]) + SlotsList(xs[1..]) == [];
      assert SlotsBelow(n) == [];
    case ImportDeclaration(s) =>
      assert Slots(s) == [];
    case ExportAllDeclaration(s) =>
      assert Slots(s) == [];
    case ExportNamedDeclaration(s) =>
      assert Slots(s.value) == [];
  }

  lemma {:induction false} SlotsListIncreasing(cs: seq<Js<nat>>)
    requires Increasing(LitsList(cs))
    ensures Increasing(SlotsList(cs)) && forall k | k in SlotsList(cs) :: k in LitsList(cs)
    decreases cs
  {
    if cs != [] {
      IncreasingSplit(Lits(cs[0]), LitsList(cs[1..]));
      SlotsIncreasing(cs[0]);
      SlotsListIncreasing(cs[1..]);
      IncreasingJoin(Slots(cs[0]), SlotsList(cs[1..]));
    }
  }

  /** Every slot names one of `count` cells. */
  predicate Bounded(slots: seq<nat>, count: nat)
  {
    forall i | 0 <= i < |slots| :: slots[i] < count
  }

  lemma SlotsWithin(n: Js<nat>, count: nat)
    requires Within(n, count)
    ensures Bounded(Slots(n), count)
  {
    SlotsAreLiterals(n);
    var slots := Slots(n);
    forall i | 0 <= i < |slots|
      ensures slots[i] < count
    {
      assert slots[i] in slots;
    }
  }

  lemma SlotsWithinList(body: seq<Js<nat>>, count: nat)
    requires WithinList(body, count)
    ensures Bounded(SlotsList(body), count)
  {
    SlotsAreLiteralsList(body);
    var slots := SlotsList(body);
    forall i | 0 <= i < |slots|
      ensures slots[i] < count
    {
      assert slots[i] in slots;
    }
  }

  lemma {:induction false} SlotsAreLiterals<L>(n: Js<L>)
    ensures forall k | k in Slots(n) :: k in Lits(n)
    decreases n
  {
    match n
    case StringLiteral(_) =>
    case Import =>
    case ImportDeclaration(s) => SlotsAreLiterals(s);
    case ExportAllDeclaration(s) => SlotsAreLiterals(s);
    case ExportNamedDeclaration(s) =>
      if s.Some? {
        SlotsAreLiterals(s.value);
      }
    case CallExpression(c, xs) =>
      SlotsAreLiterals(c);
      SlotsAreLiteralsList(xs);
      if Slot(n).Some? {
        assert SlotsList(xs) == Slots(xs[0]) + SlotsList(xs[1..]);
      }
    case Other(cs) => SlotsAreLiteralsList(cs);
  }

  lemma {:induction false} SlotsAreLiteralsList<L>(cs: seq<Js<L>>)
    ensures forall k | k in SlotsList(cs) :: k in LitsList(cs)
    decreases cs
  {
    if cs != [] {
      SlotsAreLiterals(cs[0]);
      SlotsAreLiteralsList(cs[1..]);
    }
  }
}
