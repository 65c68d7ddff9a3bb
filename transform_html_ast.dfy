/**
 * `transformHTMLAST` of src/transform-html-ast.ts: the HTML rewriter with
 * the JavaScript side injected. The base URL and the inline module scripts
 * are chosen exactly as in src/transform-html.ts (the helpers there are
 * repeated verbatim, so they are shared with module `TransformHtml`); each
 * script's text goes to a source strategy together with an AST transform
 * bound to the document's one base URL, and the strategy's output replaces
 * the script's children.
 */
module TransformHtmlAst {
  import opened Wrappers
  import opened Parse5Tree
  import opened Parse5Utils
  import opened TransformJsModule
  import opened TransformJavaScriptModule
  import opened TransformHtml

  /**
   * An AST transform handed to a source strategy, as the two values its
   * closure captures: the base URL every callback call gets, and the
   * callback as the shared traversal sees it. The closure built here,
   * `(ast) => transformJavaScriptModuleAST(ast, baseURL, transformSpecifier)`,
   * is `AstTransform(baseURL, Always(transformSpecifier))`.
   */
  datatype AstTransform = AstTransform(url: string, specifierTransform: SpecifierTransform)

  /**
   * `JSModuleSourceStrategy`: turns a module's source and an AST transform
   * into output source, reporting the callback calls made on the way;
   * `Throw` is an exception escaping the strategy.
   */
  type JsSourceStrategy = (string, AstTransform) -> Rewrite

  /** The AST transform of `transformHTMLAST` for a document whose base URL is `baseURL`. */
  function ModuleTransform(baseURL: string, transformSpecifier: TransformSpecifierFunction): AstTransform
  {
    AstTransform(baseURL, Always(transformSpecifier))
  }

  /** The strategy with its AST transform fixed: what one script's text is turned into. */
  function Bound(strategy: JsSourceStrategy, transform: AstTransform): string -> Rewrite
  {
    (js: string) => strategy(js, transform)
  }

  /**
   * What holds after each turn of the script loop: the scripts met so far
   * have been rewritten in order from the texts they held when the loop
   * began, and the document is still a well-formed tree.
   */
  ghost predicate Looping(ns0: set<Node>, ns: set<Node>, scripts: seq<Node>, before: Contents, texts: seq<string>,
                          rewrites: seq<Rewrite>, tns: seq<Node>, calls: seq<Invocation>, threw: bool,
                          rewrite: string -> Rewrite)
    reads ns, scripts, tns
  {
    && Progress(ns0, ns, scripts, before, rewrites, tns) && WellFormed(Snap(ns))
    && Ranked(before.tree) && before.tree.kids.Keys == ns0
    && Ran(rewrite, texts, rewrites, calls, threw) && ReadAtStart(before, scripts, texts)
  }

  /**
   * One turn of the script loop: the script's current text goes to the
   * strategy, and its output, when it returns, becomes the script's text.
   */
  method StrategyStep(ghost ns0: set<Node>, ghost ns: set<Node>, scripts: seq<Node>, i: nat, ghost before: Contents,
                      ghost texts: seq<string>, ghost rewrites: seq<Rewrite>, ghost tns: seq<Node>, calls: seq<Invocation>,
                      strategy: JsSourceStrategy, transform: AstTransform)
      returns (ghost ns': set<Node>, js: string, w: Rewrite, ghost tn: Node)
    requires i == |rewrites| < |scripts|
    requires Looping(ns0, ns, scripts, before, texts, rewrites, tns, calls, false, Bound(strategy, transform))
    modifies {scripts[i]}`childNodes, {scripts[i]}`value, {scripts[i]}`data
    ensures Looping(ns0, ns', scripts, before, texts + [js], rewrites + [w], tns + [tn], calls + w.calls,
                    w.result.Throw?, Bound(strategy, transform))
    ensures js == old(GetTextContent(ns, scripts[i]))
    ensures w == Bound(strategy, transform)(js)
    ensures ns' == ns + Added(w, tn) && (w.result.Return? ==> fresh(tn))
  {
    assert scripts[i] in scripts;
    js := GetTextContent(ns, scripts[i]);
    if FirstBelow(before.tree, scripts, i) {
      ReadUntouched(ns, ns0, scripts, i, before);
    }
    ReadAtStartSnoc(before, scripts, texts, js);
    w := strategy(js, transform);
    RanStep(Bound(strategy, transform), texts, rewrites, calls, false, js, w);
    ns', tn := RewriteStep(ns0, ns, scripts, i, before, rewrites, tns, w);
  }

  /**
   * The `forEach` of `transformHTMLAST` over `scripts`: the strategy is
   * called once per script, in order, with the script's current text and
   * the same AST transform; the first exception ends the loop. `before`
   * holds the document's child lists, values and data when the loop
   * begins: every script no earlier script lies below is handed its text
   * as it was then, and no node but the scripts met changes.
   */
  method StrategyLoop(ghost ns: set<Node>, scripts: seq<Node>, ghost before: Contents,
                      strategy: JsSourceStrategy, transform: AstTransform)
      returns (ghost ns': set<Node>, calls: seq<Invocation>, threw: bool,
               ghost texts: seq<string>, ghost rewrites: seq<Rewrite>)
    requires Document(ns) && WellFormed(Snap(ns)) && forall x | x in scripts :: x in ns && x.nodeName == "script"
    requires Ranked(before.tree) && before.tree.kids.Keys == ns && Untouched(ns, {}, before)
    modifies ns`childNodes, ns`value, ns`data
    ensures ns <= ns' && Document(ns') && WellFormed(Snap(ns'))
    ensures forall x | x in ns' && x !in ns :: fresh(x)
    ensures RewroteAll(ns', scripts, Bound(strategy, transform), calls, threw, texts, rewrites)
    ensures ReadAtStart(before, scripts, texts)
    ensures |rewrites| <= |scripts| && Untouched(ns, Met(scripts, |rewrites|), before)
  {
    ns' := ns;
    calls, threw := [], false;
    texts, rewrites := [], [];
    ghost var tns: seq<Node> := [];
    var i := 0;
    while i < |scripts| && !threw
      invariant i == |rewrites|
      invariant Looping(ns, ns', scripts, before, texts, rewrites, tns, calls, threw, Bound(strategy, transform))
      invariant |tns| == i && forall x | x in ns' && x !in ns :: fresh(x)
      decreases |scripts| - i
    {
      var js, w;
      ghost var tn;
      assert scripts[i] in scripts;
      ns', js, w, tn := StrategyStep(ns, ns', scripts, i, before, texts, rewrites, tns, calls, strategy, transform);
      assert (rewrites + [w])[..i] == rewrites && (tns + [tn])[..i] == tns;
      texts, rewrites, tns := texts + [js], rewrites + [w], tns + [tn];
      calls, threw := calls + w.calls, w.result.Throw?;
      i := i + 1;
    }
    LoopDone(ns', scripts, Bound(strategy, transform), calls, threw, texts, rewrites, tns);
  }

  /**
   * The script loop run from the document as it stands: what the loop
   * returns, restated against the document before it began.
   */
  method RunStrategy(ghost ns: set<Node>, scripts: seq<Node>, strategy: JsSourceStrategy, transform: AstTransform)
      returns (ghost ns': set<Node>, calls: seq<Invocation>, threw: bool,
               ghost texts: seq<string>, ghost rewrites: seq<Rewrite>)
    requires Document(ns) && WellFormed(Snap(ns)) && forall x | x in scripts :: x in ns && x.nodeName == "script"
    modifies ns`childNodes, ns`value, ns`data
    ensures ns <= ns' && Document(ns') && WellFormed(Snap(ns'))
    ensures fresh(ns' - ns)
    ensures RewroteAll(ns', scripts, Bound(strategy, transform), calls, threw, texts, rewrites)
    ensures old(TextsRead(ns, scripts, texts))
    ensures forall n | n in ns && n !in scripts ::
              n.childNodes == old(n.childNodes) && n.value == old(n.value) && n.data == old(n.data)
  {
    ghost var before := ContentsOf(ns);
    TextsAtStart(ns, scripts);
    ns', calls, threw, texts, rewrites := StrategyLoop(ns, scripts, before, strategy, transform);
    KeptOutside(ns, scripts, before, |rewrites|);
  }

  /**
   * `transformHTMLAST`: one base URL for the whole document; every inline
   * module script, in document order, has its text run through `strategy`
   * with the AST transform bound to that base URL, and the output put back
   * as the script's only child. Each script is handed the text it held
   * when the loop began, wherever no earlier script lies above it. An
   * exception from the strategy ends the loop and propagates. Attributes
   * are outside the frame, so none changes.
   */
  method TransformHTMLAST(ghost ns: set<Node>, ast: Node, url: string, transformSpecifier: TransformSpecifierFunction,
                          strategy: JsSourceStrategy, resolveURL: UrlResolver)
      returns (ghost ns': set<Node>, calls: seq<Invocation>, threw: bool,
               ghost texts: seq<string>, ghost rewrites: seq<Rewrite>)
    requires ast in ns && Document(ns) && WellFormed(Snap(ns))
    modifies ns`childNodes, ns`value, ns`data
    ensures ns <= ns' && Document(ns') && WellFormed(Snap(ns'))
    ensures fresh(ns' - ns)
    ensures RewroteAll(ns', old(GetInlineModuleScripts(ns, ast)),
                       Bound(strategy, ModuleTransform(old(GetBaseURL(ns, ast, url, resolveURL)), transformSpecifier)),
                       calls, threw, texts, rewrites)
    ensures old(TextsRead(ns, GetInlineModuleScripts(ns, ast), texts))
    ensures forall n | n in ns && n !in old(GetInlineModuleScripts(ns, ast)) ::
              n.childNodes == old(n.childNodes) && n.value == old(n.value) && n.data == old(n.data)
  {
    var baseURL := GetBaseURL(ns, ast, url, resolveURL);
    var scripts := GetInlineModuleScripts(ns, ast);
    ns', calls, threw, texts, rewrites := RunStrategy(ns, scripts, strategy, ModuleTransform(baseURL, transformSpecifier));
  }

  /**
   * The loop's outcome in terms of the strategy alone: the `j`-th script
   * met went to the strategy as `texts[j]` with the one AST transform (that
   * `texts[j]` is the script's text is `TransformHTMLAST`'s to state, from
   * the document it starts on); every call but the
   * last returned, the loop threw exactly when the last one did, it reached
   * every script unless it threw, and each script rewritten and not met
   * again reads back the strategy's output.
   */
  lemma {:induction false} StrategyOutputs(ns: set<Node>, scripts: seq<Node>, strategy: JsSourceStrategy,
                                           transform: AstTransform, calls: seq<Invocation>, threw: bool,
                                           texts: seq<string>, rewrites: seq<Rewrite>)
    requires RewroteAll(ns, scripts, Bound(strategy, transform), calls, threw, texts, rewrites)
    ensures |texts| <= |scripts| && (!threw ==> |texts| == |scripts|)
    ensures forall j | 0 <= j < |texts| :: rewrites[j] == strategy(texts[j], transform)
    ensures forall j | 0 <= j < |texts| - 1 :: strategy(texts[j], transform).result.Return?
    ensures threw <==> texts != [] && strategy(texts[|texts| - 1], transform).result.Throw?
    ensures forall j | 0 <= j < |texts| && strategy(texts[j], transform).result.Return?
                       && scripts[j] !in scripts[j + 1..|texts|] ::
              scripts[j] in ns && GetTextContent(ns, scripts[j]) == strategy(texts[j], transform).result.value
  {
    EachAt(texts, Bound(strategy, transform));
  }
}
