/**
 * `transformJSModule` (src/transform-js-module.ts): the traversal rewrites
 * the string-literal source of every import / export declaration and the
 * string argument of every one-argument `import(...)` with what the
 * specifier callback answers, leaving the literal alone when it answers
 * `undefined`. A callback that throws ends the traversal and the exception
 * propagates.
 */
module TransformJsModule {
  import opened Wrappers
  import opened JsAst

  /**
   * The specifier callback `(url, specifier) => string|undefined`: `None` is
   * `undefined`, `Throw` a thrown exception.
   */
  type SpecifierTransform = (string, string) -> Completion<Option<string>>

  /** One call of the specifier callback, with its arguments. */
  datatype Invocation = Invocation(url: string, specifier: string)

  /** Where a traversal stands: the literal cells, the calls made so far, and whether one threw. */
  datatype Run = Run(cells: seq<string>, calls: seq<Invocation>, threw: bool)

  /** What a slot holding `s` holds once the visitor has run on it. */
  function NewValue(f: SpecifierTransform, url: string, s: string): string
  {
    match f(url, s)
    case Return(Some(v)) => v
    case _ => s
  }

  /** The `enter` visitor at a node whose slot is cell `k`; after a throw nothing more happens. */
  function Visit(run: Run, k: nat, f: SpecifierTransform, url: string): (r: Run)
    requires k < |run.cells|
    ensures |r.cells| == |run.cells|
  {
    if run.threw then run
    else
      var specifier := run.cells[k];
      var calls := run.calls + [Invocation(url, specifier)];
      match f(url, specifier)
      case Throw => Run(run.cells, calls, true)
      case Return(None) => Run(run.cells, calls, false)
      case Return(Some(v)) => Run(run.cells[k := v], calls, false)
  }

  /** The visitor run at each of `slots` in turn. */
  function RunFrom(run: Run, slots: seq<nat>, f: SpecifierTransform, url: string): (r: Run)
    requires Bounded(slots, |run.cells|)
    ensures |r.cells| == |run.cells|
    decreases |slots|
  {
    if slots == [] then run else RunFrom(Visit(run, slots[0], f, url), slots[1..], f, url)
  }

  /** A whole traversal, from the parsed cells and no calls. */
  function RunSlots(cells: seq<string>, slots: seq<nat>, f: SpecifierTransform, url: string): (r: Run)
    requires Bounded(slots, |cells|)
  {
    RunFrom(Run(cells, [], false), slots, f, url)
  }

  predicate DistinctCells(slots: seq<nat>)
  {
    forall i, j | 0 <= i < j < |slots| :: slots[i] != slots[j]
  }

  /** Visiting one list of slots and then another is visiting the two in a row. */
  lemma {:induction false} RunAppend(run: Run, a: seq<nat>, b: seq<nat>, f: SpecifierTransform, url: string)
    requires Bounded(a, |run.cells|) && Bounded(b, |run.cells|)
    ensures Bounded(a + b, |run.cells|)
    ensures RunFrom(run, a + b, f, url) == RunFrom(RunFrom(run, a, f, url), b, f, url)
    decreases |a|
  {
    if a != [] {
      assert (a + b)[0] == a[0] && (a + b)[1..] == a[1..] + b;
      RunAppend(Visit(run, a[0], f, url), a[1..], b, f, url);
    } else {
      assert a + b == b;
    }
  }

  /** Once a call has thrown, the remaining slots are not visited. */
  lemma {:induction false} ThrowStops(run: Run, slots: seq<nat>, f: SpecifierTransform, url: string)
    requires Bounded(slots, |run.cells|) && run.threw
    ensures RunFrom(run, slots, f, url) == run
    decreases |slots|
  {
    if slots != [] {
      ThrowStops(run, slots[1..], f, url);
    }
  }

  /**
   * The calls a traversal makes: one per slot, in order, each with the
   * document `url` and the literal as it stood before the traversal, up to
   * and including the first call that throws; with no throw, every slot
   * gets its call.
   */
  lemma {:induction false} RunCalls(run: Run, slots: seq<nat>, f: SpecifierTransform, url: string)
    requires Bounded(slots, |run.cells|) && DistinctCells(slots) && !run.threw
    ensures var r := RunFrom(run, slots, f, url);
            var m := |r.calls| - |run.calls|;
            && 0 <= m <= |slots| && r.calls[..|run.calls|] == run.calls
            && (forall i | 0 <= i < m :: r.calls[|run.calls| + i] == Invocation(url, run.cells[slots[i]]))
            && (forall i | 0 <= i < m - 1 :: f(url, run.cells[slots[i]]).Return?)
            && (r.threw <==> 0 < m && f(url, run.cells[slots[m - 1]]).Throw?)
            && (!r.threw ==> m == |slots|)
    decreases |slots|
  {
    if slots != [] {
      var k := slots[0];
      var run1 := Visit(run, k, f, url);
      var r := RunFrom(run, slots, f, url);
      assert r == RunFrom(run1, slots[1..], f, url);
      if run1.threw {
        ThrowStops(run1, slots[1..], f, url);
      } else {
        VisitCells(run, k, f, url);
        RunCalls(run1, slots[1..], f, url);
        assert forall i | 1 <= i < |slots| :: run1.cells[slots[i]] == run.cells[slots[i]] by {
          assert forall i | 1 <= i < |slots| :: slots[i] != k;
        }
        assert r.calls[..|run1.calls|] == run1.calls;
        assert r.calls[..|run.calls|] == r.calls[..|run1.calls|][..|run.calls|];
      }
    }
  }

  lemma VisitCells(run: Run, k: nat, f: SpecifierTransform, url: string)
    requires k < |run.cells| && !run.threw
    ensures var r := Visit(run, k, f, url);
            && r.calls == run.calls + [Invocation(url, run.cells[k])]
            && r.cells == run.cells[k := NewValue(f, url, run.cells[k])]
            && (r.threw <==> f(url, run.cells[k]).Throw?)
  {
  }

  /**
   * The cells after a traversal: a slot the traversal reached holds
   * `NewValue` of what it held before (itself when the callback answered
   * `undefined` or threw); every other cell is unchanged.
   */
  lemma {:induction false} RunCells(run: Run, slots: seq<nat>, f: SpecifierTransform, url: string)
    requires Bounded(slots, |run.cells|) && DistinctCells(slots) && !run.threw
    ensures var r := RunFrom(run, slots, f, url);
            var m := |r.calls| - |run.calls|;
            && 0 <= m <= |slots|
            && forall k | 0 <= k < |run.cells| ::
                 r.cells[k] == if k in slots[..m] then NewValue(f, url, run.cells[k]) else run.cells[k]
    decreases |slots|
  {
    if slots != [] {
      var k := slots[0];
      var run1 := Visit(run, k, f, url);
      var r := RunFrom(run, slots, f, url);
      VisitCells(run, k, f, url);
      if run1.threw {
        ThrowStops(run1, slots[1..], f, url);
        assert slots[..1] == [k];
      } else {
        RunCells(run1, slots[1..], f, url);
        assert r == RunFrom(run1, slots[1..], f, url);
        var m1 := |r.calls| - |run1.calls|;
        ReachedPrefix(slots, m1);
      }
    }
  }

  lemma ReachedPrefix(slots: seq<nat>, m1: nat)
    requires 0 < |slots| && m1 < |slots| && DistinctCells(slots)
    ensures slots[..m1 + 1] == [slots[0]] + slots[1..][..m1]
    ensures slots[0] !in slots[1..]
  {
    assert slots[..m1 + 1] == [slots[0]] + slots[1..][..m1];
    assert forall i | 1 <= i < |slots| :: slots[i] != slots[0];
  }

  /**
   * A callback that always answers `undefined` (or the specifier it was
   * given) changes no literal and never throws.
   */
  lemma {:induction false} IdleCallbackChangesNothing(run: Run, slots: seq<nat>, f: SpecifierTransform, url: string)
    requires Bounded(slots, |run.cells|) && !run.threw
    requires forall s: string :: f(url, s) == Return(None) || f(url, s) == Return(Some(s))
    ensures RunFrom(run, slots, f, url).cells == run.cells && !RunFrom(run, slots, f, url).threw
    decreases |slots|
  {
    if slots != [] {
      var run1 := Visit(run, slots[0], f, url);
      assert run1.cells == run.cells by {
        var s := run.cells[slots[0]];
        if f(url, s) == Return(Some(s)) {
          assert run.cells[slots[0] := s] == run.cells;
        }
      }
      IdleCallbackChangesNothing(run1, slots[1..], f, url);
    }
  }

  lemma IncreasingDistinct(slots: seq<nat>)
    requires Increasing(slots)
    ensures DistinctCells(slots)
  {
  }

  // ---- A whole program ----

  /** The traversal of a freshly parsed program whose literals are numbered as cells. */
  function ProgramRun(body: seq<Js<string>>, f: SpecifierTransform, url: string): (r: Run)
    ensures |r.cells| == |LitsList(body)|
  {
    ShapedProgram(body);
    RunSlots(LitsList(body), SlotsList(ShapeList(body, 0)), f, url)
  }

  /** The program the serializer sees after the traversal. */
  function Program(body: seq<Js<string>>, f: SpecifierTransform, url: string): seq<Js<string>>
  {
    ShapedProgram(body);
    FillList(ShapeList(body, 0), ProgramRun(body, f, url).cells)
  }

  /**
   * What the traversal does to a program: the program before and after are
   * the same numbered tree read from the cells before and after, so only
   * literal values change; a literal in a slot the traversal reached holds
   * `NewValue` of its parsed value, every other literal keeps it; the calls
   * go to the reached slots in order, each with `url` and the parsed value.
   */
  lemma ProgramRewrite(body: seq<Js<string>>, f: SpecifierTransform, url: string)
    ensures var shape := ShapeList(body, 0);
            var lits := LitsList(body);
            var slots := SlotsList(shape);
            var run := ProgramRun(body, f, url);
            var m := |run.calls|;
            && WithinList(shape, |lits|)
            && body == FillList(shape, lits) && Program(body, f, url) == FillList(shape, run.cells)
            && Bounded(slots, |lits|) && m <= |slots|
            && (forall i | 0 <= i < m :: run.calls[i] == Invocation(url, lits[slots[i]]))
            && (forall k | 0 <= k < |lits| ::
                  run.cells[k] == if k in slots[..m] then NewValue(f, url, lits[k]) else lits[k])
            && (run.threw <==> 0 < m && f(url, lits[slots[m - 1]]).Throw?)
            && (!run.threw ==> m == |slots|)
  {
    ShapedProgram(body);
    ProgramCalls(body, f, url);
    ProgramCells(body, f, url);
  }

  lemma ProgramCalls(body: seq<Js<string>>, f: SpecifierTransform, url: string)
    ensures var lits := LitsList(body);
            var slots := SlotsList(ShapeList(body, 0));
            var run := ProgramRun(body, f, url);
            var m := |run.calls|;
            && Bounded(slots, |lits|) && m <= |slots|
            && (forall i | 0 <= i < m :: run.calls[i] == Invocation(url, lits[slots[i]]))
            && (run.threw <==> 0 < m && f(url, lits[slots[m - 1]]).Throw?)
            && (!run.threw ==> m == |slots|)
  {
    ProgramSlots(body);
    SlotsCalls(LitsList(body), SlotsList(ShapeList(body, 0)), f, url);
  }

  /** `RunCalls` for a whole traversal, which starts with no calls. */
  lemma SlotsCalls(cells: seq<string>, slots: seq<nat>, f: SpecifierTransform, url: string)
    requires Bounded(slots, |cells|) && DistinctCells(slots)
    ensures var run := RunSlots(cells, slots, f, url);
            var m := |run.calls|;
            && m <= |slots|
            && (forall i | 0 <= i < m :: run.calls[i] == Invocation(url, cells[slots[i]]))
            && (run.threw <==> 0 < m && f(url, cells[slots[m - 1]]).Throw?)
            && (!run.threw ==> m == |slots|)
  {
    var start := Run(cells, [], false);
    var run := RunSlots(cells, slots, f, url);
    assert run == RunFrom(start, slots, f, url);
    var m := |run.calls|;
    assert m <= |slots| && (run.threw <==> 0 < m && f(url, cells[slots[m - 1]]).Throw?) && (!run.threw ==> m == |slots|) by {
      RunCalls(start, slots, f, url);
      assert |start.calls| == 0;
    }
    forall i | 0 <= i < m
      ensures run.calls[i] == Invocation(url, cells[slots[i]])
    {
      RunCalls(start, slots, f, url);
      assert run.calls[i] == run.calls[|start.calls| + i];
    }
  }

  lemma ProgramCells(body: seq<Js<string>>, f: SpecifierTransform, url: string)
    ensures var lits := LitsList(body);
            var slots := SlotsList(ShapeList(body, 0));
            var run := ProgramRun(body, f, url);
            var m := |run.calls|;
            && Bounded(slots, |lits|) && m <= |slots|
            && (forall k | 0 <= k < |lits| ::
                  run.cells[k] == if k in slots[..m] then NewValue(f, url, lits[k]) else lits[k])
  {
    ProgramSlots(body);
    RunCells(Run(LitsList(body), [], false), SlotsList(ShapeList(body, 0)), f, url);
  }

  /** The slots of a parsed program are distinct cells, all of them allocated. */
  lemma ProgramSlots(body: seq<Js<string>>)
    ensures var slots := SlotsList(ShapeList(body, 0));
            Bounded(slots, |LitsList(body)|) && DistinctCells(slots)
  {
    ShapedProgram(body);
    IncreasingDistinct(SlotsList(ShapeList(body, 0)));
  }

  /** A callback that always answers `undefined` leaves the program as parsed. */
  lemma IdleCallbackKeepsProgram(body: seq<Js<string>>, f: SpecifierTransform, url: string)
    requires forall s: string :: f(url, s) == Return(None) || f(url, s) == Return(Some(s))
    ensures Program(body, f, url) == body && !ProgramRun(body, f, url).threw
  {
    ShapedProgram(body);
    IdleCallbackChangesNothing(Run(LitsList(body), [], false), SlotsList(ShapeList(body, 0)), f, url);
  }

  /**
   * `transformJSModule`: Babel's traversal of the program below its root.
   * The cells end as `RunSlots` says, from the cells as they were, and the
   * calls made are returned.
   */
  method TransformJSModule(body: seq<Js<nat>>, cells: array<string>, url: string, specifierTransform: SpecifierTransform)
      returns (calls: seq<Invocation>, threw: bool)
    requires WithinList(body, cells.Length)
    modifies cells
    ensures Bounded(SlotsList(body), cells.Length)
    ensures Run(cells[..], calls, threw) == RunSlots(old(cells[..]), SlotsList(body), specifierTransform, url)
  {
    SlotsWithinList(body, cells.Length);
    calls, threw := TraverseList(body, cells, url, specifierTransform, []);
  }

  /**
   * Babel's traversal at node `n`: the `enter` visitor first, then the
   * children left to right; a throw ends it.
   */
  method Traverse(n: Js<nat>, cells: array<string>, url: string, specifierTransform: SpecifierTransform,
                  callsBefore: seq<Invocation>)
      returns (calls: seq<Invocation>, threw: bool)
    requires Within(n, cells.Length)
    modifies cells
    ensures Bounded(Slots(n), cells.Length)
    ensures Run(cells[..], calls, threw)
            == RunFrom(Run(old(cells[..]), callsBefore, false), Slots(n), specifierTransform, url)
    decreases n, 2
  {
    SlotsWithin(n, cells.Length);
    BoundedSplit(Here(n), SlotsBelow(n), cells.Length);
    ghost var run0 := Run(cells[..], callsBefore, false);
    calls, threw := Enter(n, cells, url, specifierTransform, callsBefore);
    RunAppend(run0, Here(n), SlotsBelow(n), specifierTransform, url);
    if threw {
      ThrowStops(Run(cells[..], calls, threw), SlotsBelow(n), specifierTransform, url);
      return;
    }
    calls, threw := TraverseBelow(n, cells, url, specifierTransform, calls);
  }

  lemma BoundedSplit(a: seq<nat>, b: seq<nat>, count: nat)
    requires Bounded(a + b, count)
    ensures Bounded(a, count) && Bounded(b, count)
  {
    forall i | 0 <= i < |a|
      ensures a[i] < count
    {
      assert (a + b)[i] == a[i];
    }
    forall i | 0 <= i < |b|
      ensures b[i] < count
    {
      assert (a + b)[|a| + i] == b[i];
    }
  }

  /**
   * The `enter` visitor: the slot's literal goes to the callback, and an
   * answer other than `undefined` is stored into it.
   */
  method Enter(n: Js<nat>, cells: array<string>, url: string, specifierTransform: SpecifierTransform,
               callsBefore: seq<Invocation>)
      returns (calls: seq<Invocation>, threw: bool)
    requires Within(n, cells.Length)
    modifies cells
    ensures Bounded(Here(n), cells.Length)
    ensures Run(cells[..], calls, threw)
            == RunFrom(Run(old(cells[..]), callsBefore, false), Here(n), specifierTransform, url)
  {
    calls, threw := callsBefore, false;
    var slot := Slot(n);
    if slot.Some? {
      var k := slot.value;
      assert k in Lits(n);
      VisitCells(Run(cells[..], callsBefore, false), k, specifierTransform, url);
      var specifier := cells[k];
      calls := calls + [Invocation(url, specifier)];
      var transformedSpecifier := specifierTransform(url, specifier);
      if transformedSpecifier.Throw? {
        threw := true;
        return;
      }
      if transformedSpecifier.value.Some? {
        cells[k] := transformedSpecifier.value.value;
      }
    }
  }

  /** The traversal of the children of `n`. */
  method TraverseBelow(n: Js<nat>, cells: array<string>, url: string, specifierTransform: SpecifierTransform,
                       callsBefore: seq<Invocation>)
      returns (calls: seq<Invocation>, threw: bool)
    requires Within(n, cells.Length) && Bounded(SlotsBelow(n), cells.Length)
    modifies cells
    ensures Run(cells[..], calls, threw)
            == RunFrom(Run(old(cells[..]), callsBefore, false), SlotsBelow(n), specifierTransform, url)
    decreases n, 1
  {
    calls, threw := callsBefore, false;
    match n
    case StringLiteral(_) =>
    case Import =>
    case ImportDeclaration(s) =>
      assert Lits(n) == Lits(s);
      calls, threw := Traverse(s, cells, url, specifierTransform, calls);
    case ExportAllDeclaration(s) =>
      assert Lits(n) == Lits(s);
      calls, threw := Traverse(s, cells, url, specifierTransform, calls);
    case ExportNamedDeclaration(s) =>
      if s.Some? {
        assert Lits(n) == Lits(s.value);
        calls, threw := Traverse(s.value, cells, url, specifierTransform, calls);
      }
    case CallExpression(c, xs) =>
      calls, threw := TraverseCall(c, xs, cells, url, specifierTransform, calls);
    case Other(cs) =>
      assert Lits(n) == LitsList(cs);
      calls, threw := TraverseList(cs, cells, url, specifierTransform, calls);
  }

  /** A call's callee, then its arguments. */
  method TraverseCall(c: Js<nat>, xs: seq<Js<nat>>, cells: array<string>, url: string,
                      specifierTransform: SpecifierTransform, callsBefore: seq<Invocation>)
      returns (calls: seq<Invocation>, threw: bool)
    requires Within(CallExpression(c, xs), cells.Length)
    modifies cells
    ensures Bounded(Slots(c) + SlotsList(xs), cells.Length)
    ensures Run(cells[..], calls, threw)
            == RunFrom(Run(old(cells[..]), callsBefore, false), Slots(c) + SlotsList(xs), specifierTransform, url)
    decreases CallExpression(c, xs), 0
  {
    assert Lits(CallExpression(c, xs)) == Lits(c) + LitsList(xs);
    assert forall k | k in Lits(c) :: k in Lits(CallExpression(c, xs));
    assert forall k | k in LitsList(xs) :: k in Lits(CallExpression(c, xs));
    ghost var run0 := Run(cells[..], callsBefore, false);
    calls, threw := Traverse(c, cells, url, specifierTransform, callsBefore);
    SlotsWithinList(xs, cells.Length);
    RunAppend(run0, Slots(c), SlotsList(xs), specifierTransform, url);
    if threw {
      ThrowStops(Run(cells[..], calls, threw), SlotsList(xs), specifierTransform, url);
      return;
    }
    calls, threw := TraverseList(xs, cells, url, specifierTransform, calls);
  }

  /** The traversal of a list of sibling nodes, left to right. */
  method TraverseList(cs: seq<Js<nat>>, cells: array<string>, url: string, specifierTransform: SpecifierTransform,
                      callsBefore: seq<Invocation>)
      returns (calls: seq<Invocation>, threw: bool)
    requires WithinList(cs, cells.Length)
    modifies cells
    ensures Bounded(SlotsList(cs), cells.Length)
    ensures Run(cells[..], calls, threw)
            == RunFrom(Run(old(cells[..]), callsBefore, false), SlotsList(cs), specifierTransform, url)
    decreases cs, 3
  {
    SlotsWithinList(cs, cells.Length);
    if cs == [] {
      return callsBefore, false;
    }
    assert LitsList(cs) == Lits(cs[0]) + LitsList(cs[1..]);
    assert forall k | k in Lits(cs[0]) :: k in LitsList(cs);
    assert forall k | k in LitsList(cs[1..]) :: k in LitsList(cs);
    ghost var run0 := Run(cells[..], callsBefore, false);
    calls, threw := Traverse(cs[0], cells, url, specifierTransform, callsBefore);
    SlotsWithinList(cs[1..], cells.Length);
    RunAppend(run0, Slots(cs[0]), SlotsList(cs[1..]), specifierTransform, url);
    if threw {
      ThrowStops(Run(cells[..], calls, threw), SlotsList(cs[1..]), specifierTransform, url);
      return;
    }
    calls, threw := TraverseList(cs[1..], cells, url, specifierTransform, calls);
  }
}
