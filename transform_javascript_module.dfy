/**
 * `transformJavaScriptModuleAST` and `transformJavaScriptModuleString`
 * (src/transform-javascript-module.ts): the same traversal as
 * `transformJSModule`, but the callback is typed to return a string and its
 * answer is written back with no `undefined` guard; the string form parses,
 * rewrites, serializes and puts the input's own leading and trailing
 * whitespace back around the generated code.
 */
module TransformJavaScriptModule {
  import opened Wrappers
  import opened JsString
  import opened JsAst
  import opened TransformJsModule

  /** `TransformSpecifierFunction`: `(baseURL, specifier) => string`; `Throw` is a thrown exception. */
  type TransformSpecifierFunction = (string, string) -> Completion<string>

  /** Babel's `parse`: the program, or a thrown syntax error. */
  type JsParser = string -> Completion<seq<Js<string>>>

  /** Babel's generator: the code of a program. */
  type JsSerializer = seq<Js<string>> -> string

  /**
   * The callback as the shared traversal sees it. It never answers
   * `undefined`, so the guard of `transformJSModule` never fires and the
   * answer is always written back.
   */
  function Always(transformSpecifier: TransformSpecifierFunction): SpecifierTransform
  {
    (url: string, s: string) =>
      match transformSpecifier(url, s)
      case Return(v) => Return(Some(v))
      case Throw => Throw
  }

  /**
   * `transformJavaScriptModuleAST`: every qualifying literal is overwritten
   * with the callback's answer, in traversal order, until a call throws.
   */
  method TransformJavaScriptModuleAST(ast: seq<Js<nat>>, cells: array<string>, url: string,
                                      transformSpecifier: TransformSpecifierFunction)
      returns (calls: seq<Invocation>, threw: bool)
    requires WithinList(ast, cells.Length)
    modifies cells
    ensures Bounded(SlotsList(ast), cells.Length)
    ensures Run(cells[..], calls, threw) == RunSlots(old(cells[..]), SlotsList(ast), Always(transformSpecifier), url)
  {
    calls, threw := TransformJSModule(ast, cells, url, Always(transformSpecifier));
  }

  /**
   * The write-back is unconditional: each slot the traversal reached whose
   * call returned holds exactly the callback's answer, every cell that is
   * no slot is untouched, and with no throw every slot is reached.
   */
  lemma WrittenBack(cells: seq<string>, slots: seq<nat>, transformSpecifier: TransformSpecifierFunction, url: string)
    requires Bounded(slots, |cells|) && DistinctCells(slots)
    ensures var r := RunSlots(cells, slots, Always(transformSpecifier), url);
            var m := |r.calls|;
            && m <= |slots|
            && (forall i | 0 <= i < m :: r.calls[i] == Invocation(url, cells[slots[i]]))
            && (forall i | 0 <= i < m && transformSpecifier(url, cells[slots[i]]).Return? ::
                  r.cells[slots[i]] == transformSpecifier(url, cells[slots[i]]).value)
            && (forall k | 0 <= k < |cells| && k !in slots :: r.cells[k] == cells[k])
            && (!r.threw ==> m == |slots|)
  {
    RunCalls(Run(cells, [], false), slots, Always(transformSpecifier), url);
    WrittenCells(cells, slots, transformSpecifier, url);
  }

  lemma WrittenCells(cells: seq<string>, slots: seq<nat>, transformSpecifier: TransformSpecifierFunction, url: string)
    requires Bounded(slots, |cells|) && DistinctCells(slots)
    ensures var r := RunSlots(cells, slots, Always(transformSpecifier), url);
            var m := |r.calls|;
            && m <= |slots|
            && (forall i | 0 <= i < m && transformSpecifier(url, cells[slots[i]]).Return? ::
                  r.cells[slots[i]] == transformSpecifier(url, cells[slots[i]]).value)
            && (forall k | 0 <= k < |cells| && k !in slots :: r.cells[k] == cells[k])
  {
    var f := Always(transformSpecifier);
    var r := RunSlots(cells, slots, f, url);
    RunCells(Run(cells, [], false), slots, f, url);
    var m := |r.calls|;
    forall i | 0 <= i < m && transformSpecifier(url, cells[slots[i]]).Return?
      ensures r.cells[slots[i]] == transformSpecifier(url, cells[slots[i]]).value
    {
      assert slots[i] == slots[..m][i];
      AlwaysWrites(transformSpecifier, url, cells[slots[i]]);
    }
    assert forall x | x in slots[..m] :: x in slots;
  }

  lemma AlwaysWrites(transformSpecifier: TransformSpecifierFunction, url: string, s: string)
    requires transformSpecifier(url, s).Return?
    ensures NewValue(Always(transformSpecifier), url, s) == transformSpecifier(url, s).value
  {
  }

  /** What rewriting a module's source gives: a result, and the callback calls made on the way. */
  datatype Rewrite = Rewrite(result: Completion<string>, calls: seq<Invocation>)

  /** `transformJavaScriptModuleString` as a value: its result and the callback calls made on the way. */
  function ModuleString(js: string, url: string, transformSpecifier: TransformSpecifierFunction,
                        parse: JsParser, serialize: JsSerializer): Rewrite
  {
    match parse(js)
    case Throw => Rewrite(Throw, [])
    case Return(ast) =>
      var run := ProgramRun(ast, Always(transformSpecifier), url);
      var code := LeadingWhitespace(js) + serialize(Program(ast, Always(transformSpecifier), url)) + TrailingWhitespace(js);
      Rewrite(if run.threw then Throw else Return(code), run.calls)
  }

  /** Nothing is called when parsing throws; otherwise every call made gets `url`. */
  lemma ModuleStringCalls(js: string, url: string, transformSpecifier: TransformSpecifierFunction,
                          parse: JsParser, serialize: JsSerializer)
    ensures parse(js).Throw? ==> ModuleString(js, url, transformSpecifier, parse, serialize) == Rewrite(Throw, [])
    ensures forall c | c in ModuleString(js, url, transformSpecifier, parse, serialize).calls :: c.url == url
  {
    if parse(js).Return? {
      ProgramRewrite(parse(js).value, Always(transformSpecifier), url);
    }
  }

  /** A returned output keeps the source's leading and trailing whitespace runs around the code. */
  lemma ModuleStringKeepsWhitespace(js: string, url: string, transformSpecifier: TransformSpecifierFunction,
                                    parse: JsParser, serialize: JsSerializer)
    ensures var o := ModuleString(js, url, transformSpecifier, parse, serialize);
            o.result.Return? ==>
              StartsWith(o.result.value, LeadingWhitespace(js)) && EndsWith(o.result.value, TrailingWhitespace(js))
  {
  }

  /**
   * With a callback that hands every specifier back, the output is the
   * parsed program regenerated between the source's own whitespace runs.
   */
  lemma IdentityModuleString(js: string, url: string, transformSpecifier: TransformSpecifierFunction,
                             parse: JsParser, serialize: JsSerializer)
    requires parse(js).Return?
    requires forall s: string :: transformSpecifier(url, s) == Return(s)
    ensures ModuleString(js, url, transformSpecifier, parse, serialize).result
            == Return(LeadingWhitespace(js) + serialize(parse(js).value) + TrailingWhitespace(js))
  {
    var f := Always(transformSpecifier);
    forall s: string
      ensures f(url, s) == Return(Some(s))
    {
      assert transformSpecifier(url, s) == Return(s);
    }
    IdleCallbackKeepsProgram(parse(js).value, f, url);
  }

  /**
   * `transformJavaScriptModuleString`: parse first, so a parse error
   * propagates before the callback is ever called; then the literals are
   * rewritten in place in `cells` and the program is regenerated.
   */
  method TransformJavaScriptModuleString(js: string, url: string, transformSpecifier: TransformSpecifierFunction,
                                         parse: JsParser, serialize: JsSerializer)
      returns (r: Completion<string>, calls: seq<Invocation>)
    ensures Rewrite(r, calls) == ModuleString(js, url, transformSpecifier, parse, serialize)
  {
    var parsed := parse(js);
    if parsed.Throw? {
      return Throw, [];
    }
    var ast := parsed.value;
    var leadingSpace := LeadingWhitespace(js);
    var trailingSpace := TrailingWhitespace(js);
    var lits := LitsList(ast);
    var shape := ShapeList(ast, 0);
    var cells := new string[|lits|](i requires 0 <= i < |lits| => lits[i]);
    assert cells[..] == lits;
    ShapedProgram(ast);
    var threw;
    calls, threw := TransformJavaScriptModuleAST(shape, cells, url, transformSpecifier);
    if threw {
      return Throw, calls;
    }
    r := Return(leadingSpace + serialize(FillList(shape, cells[..])) + trailingSpace);
  }
}
