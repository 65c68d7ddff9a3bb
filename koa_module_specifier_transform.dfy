/**
 * The middleware of src/koa-module-specifier-transform.ts. After the rest
 * of the chain has produced a response, an HTML or JavaScript body has its
 * module specifiers rewritten through the user's callback: HTML is looked
 * at before JavaScript, an empty body or any other content is left alone,
 * the callback's substitutions are counted, and any exception keeps the
 * original body and logs one error line.
 */
module KoaModuleSpecifierTransform {
  import opened Wrappers
  import opened JsString
  import opened Log
  import opened JsAst
  import opened Parse5Tree
  import opened Parse5Utils
  import opened Parse5FakeRoots
  import opened StringUtils
  import opened TransformJsModule
  import opened TransformJavaScriptModule
  import opened TransformHtml
  import opened TransformHtmlAst

  // ---- Options ----

  /** `options.logger`: `false`, a logger of the user's, or not given. */
  datatype LoggerOption = NoLogging | UseLogger(logger: Logger) | DefaultLogger

  /** `options.logLevel || 'warn'`. */
  function LogLevel(logLevel: Option<string>): string
  {
    if logLevel.Some? && logLevel.value != "" then logLevel.value else "warn"
  }

  /** `leveledLogger(logger, level)`: a foreign function of the logging support. */
  type LeveledLogger = (Logger, string) -> Logger

  /** `options.logger === false ? {} : leveledLogger(options.logger || console, logLevel)`. */
  function MiddlewareLogger(option: LoggerOption, logLevel: Option<string>, leveledLogger: LeveledLogger): Logger
  {
    match option
    case NoLogging => Logger(map[])
    case UseLogger(logger) => leveledLogger(logger, LogLevel(logLevel))
    case DefaultLogger => leveledLogger(ConsoleLike(), LogLevel(logLevel))
  }

  /** With `logger: false` nothing is ever logged, at any level. */
  lemma DisabledLoggingIsSilent(logLevel: Option<string>, leveledLogger: LeveledLogger, level: string, args: seq<string>)
    ensures Emit(MiddlewareLogger(NoLogging, logLevel, leveledLogger), level, args) == []
  {
  }

  /** An unset or empty level is `warn`; any other is used as given, for the user's logger and the console alike. */
  lemma DefaultLevelIsWarn(option: LoggerOption, logLevel: Option<string>, leveledLogger: LeveledLogger)
    ensures logLevel.None? ==> LogLevel(logLevel) == "warn"
    ensures logLevel.Some? && logLevel.value != "" ==> LogLevel(logLevel) == logLevel.value
    ensures option.DefaultLogger? ==>
              MiddlewareLogger(option, logLevel, leveledLogger) == leveledLogger(ConsoleLike(), LogLevel(logLevel))
  {
  }

  // ---- Counting substitutions ----

  /** `result && result !== specifier`: a non-empty answer other than the specifier itself. */
  predicate Substitutes(result: Completion<Option<string>>, specifier: string)
  {
    result.Return? && result.value.Some? && result.value.value != "" && result.value.value != specifier
  }

  /** How many of the calls in `calls`, one after another, the counter counts. */
  function Substitutions(specifierTransform: SpecifierTransform, calls: seq<Invocation>): (count: nat)
    ensures count <= |calls|
  {
    if calls == [] then 0
    else
      var last := calls[|calls| - 1];
      Substitutions(specifierTransform, calls[..|calls| - 1])
      + if Substitutes(specifierTransform(last.url, last.specifier), last.specifier) then 1 else 0
  }

  /** The count is positive exactly when some call got a substituting answer. */
  lemma {:induction false} SubstitutionsPositive(specifierTransform: SpecifierTransform, calls: seq<Invocation>)
    ensures Substitutions(specifierTransform, calls) > 0 <==>
            exists i | 0 <= i < |calls| :: Substitutes(specifierTransform(calls[i].url, calls[i].specifier), calls[i].specifier)
  {
    if calls != [] {
      var init := calls[..|calls| - 1];
      SubstitutionsPositive(specifierTransform, init);
      if Substitutions(specifierTransform, init) > 0 {
        var i :| 0 <= i < |init| && Substitutes(specifierTransform(init[i].url, init[i].specifier), init[i].specifier);
        assert calls[i] == init[i];
      }
      forall i | 0 <= i < |init|
        ensures calls[i] == init[i]
      {
      }
    }
  }

  /**
   * A callback that only ever answers `undefined`, `''` or the specifier
   * itself is never counted, however many times it is called.
   */
  lemma IdleCallbackCountsNothing(specifierTransform: SpecifierTransform, calls: seq<Invocation>)
    requires forall u: string, s: string :: !Substitutes(specifierTransform(u, s), s)
    ensures Substitutions(specifierTransform, calls) == 0
  {
    SubstitutionsPositive(specifierTransform, calls);
  }

  /** The count over calls made in two runs is the sum of the two counts. */
  lemma {:induction false} SubstitutionsAppend(specifierTransform: SpecifierTransform, a: seq<Invocation>, b: seq<Invocation>)
    ensures Substitutions(specifierTransform, a + b)
            == Substitutions(specifierTransform, a) + Substitutions(specifierTransform, b)
  {
    if b != [] {
      assert (a + b)[..|a + b| - 1] == a + b[..|b| - 1];
      SubstitutionsAppend(specifierTransform, a, b[..|b| - 1]);
    } else {
      assert a + b == a;
    }
  }

  /**
   * `countedSpecifierTransform`: calls the user's callback, counts a
   * substitution, and answers with the callback's answer unchanged.
   */
  method CountedSpecifierTransform(specifierTransform: SpecifierTransform, baseURL: string, specifier: string,
                                   count: nat)
      returns (result: Completion<Option<string>>, count': nat)
    ensures result == specifierTransform(baseURL, specifier)
    ensures count' == if Substitutes(result, specifier) then count + 1 else count
  {
    result := specifierTransform(baseURL, specifier);
    count' := count;
    if result.Return? && result.value.Some? && result.value.value != "" && result.value.value != specifier {
      count' := count' + 1;
    }
  }

  /**
   * `specifierTransformCount` once the callback has been called for
   * `calls`, in order, from 0. The callback is a function of its
   * arguments, so going through the counted wrapper once per recorded call
   * gives the count the wrapper's closure kept.
   */
  method CountSubstitutions(specifierTransform: SpecifierTransform, calls: seq<Invocation>) returns (count: nat)
    ensures count == Substitutions(specifierTransform, calls)
  {
    count := 0;
    for i := 0 to |calls|
      invariant count == Substitutions(specifierTransform, calls[..i])
    {
      var _, c := CountedSpecifierTransform(specifierTransform, calls[i].url, calls[i].specifier, count);
      assert calls[..i + 1][..i] == calls[..i];
      count := c;
    }
    assert calls[..|calls|] == calls;
  }

  // ---- The JavaScript source strategy ----

  /**
   * `jsSourceStrategy`: `jsSerializer(transform(jsParser(js)))`. A parse
   * error propagates before any callback call; the AST transform rewrites
   * the program's specifiers with its callback and URL.
   */
  function Strategy(parse: JsParser, serialize: JsSerializer, js: string, transform: AstTransform): Rewrite
  {
    match parse(js)
    case Throw => Rewrite(Throw, [])
    case Return(ast) =>
      var run := ProgramRun(ast, transform.specifierTransform, transform.url);
      Rewrite(if run.threw then Throw else Return(serialize(Program(ast, transform.specifierTransform, transform.url))),
              run.calls)
  }

  /** `jsSourceStrategy` as the value handed to the HTML rewriter. */
  function SourceStrategy(parse: JsParser, serialize: JsSerializer): JsSourceStrategy
  {
    (js: string, transform: AstTransform) => Strategy(parse, serialize, js, transform)
  }

  /** Nothing is called when parsing throws; otherwise every call gets the transform's URL. */
  lemma SourceStrategyCalls(parse: JsParser, serialize: JsSerializer, js: string, transform: AstTransform)
    ensures parse(js).Throw? ==> Strategy(parse, serialize, js, transform) == Rewrite(Throw, [])
    ensures forall c | c in Strategy(parse, serialize, js, transform).calls :: c.url == transform.url
  {
    if parse(js).Return? {
      ProgramRewrite(parse(js).value, transform.specifierTransform, transform.url);
    }
  }

  /** With a callback that changes nothing, the strategy regenerates the parsed program as it was. */
  lemma IdleSourceStrategy(parse: JsParser, serialize: JsSerializer, js: string, transform: AstTransform)
    requires parse(js).Return?
    requires forall s: string :: transform.specifierTransform(transform.url, s) in {Return(None), Return(Some(s))}
    ensures Strategy(parse, serialize, js, transform).result == Return(serialize(parse(js).value))
  {
    IdleCallbackKeepsProgram(parse(js).value, transform.specifierTransform, transform.url);
  }

  /**
   * Inside an HTML document the strategy does what
   * `transformJavaScriptModuleString` does, minus the re-wrapping in the
   * module's own whitespace: the same calls, and the same code.
   */
  lemma StrategyIsModuleString(parse: JsParser, serialize: JsSerializer, js: string, url: string,
                               transformSpecifier: TransformSpecifierFunction)
    ensures var viaStrategy := Strategy(parse, serialize, js, ModuleTransform(url, transformSpecifier));
            var viaString := ModuleString(js, url, transformSpecifier, parse, serialize);
            && viaStrategy.calls == viaString.calls
            && viaStrategy.result.Throw? == viaString.result.Throw?
            && (viaStrategy.result.Return? ==>
                  viaString.result.value == LeadingWhitespace(js) + viaStrategy.result.value + TrailingWhitespace(js))
  {
  }

  /**
   * The strategy run on a module's source: parse, rewrite the literals in
   * place through `transformJSModule`, regenerate.
   */
  method RunSourceStrategy(js: string, transform: AstTransform, parse: JsParser, serialize: JsSerializer)
      returns (r: Completion<string>, calls: seq<Invocation>)
    ensures Rewrite(r, calls) == Strategy(parse, serialize, js, transform)
  {
    var parsed := parse(js);
    if parsed.Throw? {
      return Throw, [];
    }
    var ast := parsed.value;
    var lits := LitsList(ast);
    var shape := ShapeList(ast, 0);
    var cells := new string[|lits|](i requires 0 <= i < |lits| => lits[i]);
    assert cells[..] == lits;
    ShapedProgram(ast);
    var threw;
    calls, threw := TransformJSModule(shape, cells, transform.url, transform.specifierTransform);
    if threw {
      return Throw, calls;
    }
    r := Return(serialize(FillList(shape, cells[..])));
  }

  // ---- The HTML path ----

  /**
   * The counted callback as `transformJavaScriptModuleAST` sees it inside
   * a document. That function writes every answer back with no
   * `undefined` guard; an `undefined` answer is read here as the specifier
   * itself.
   */
  function Defaulted(specifierTransform: SpecifierTransform): TransformSpecifierFunction
  {
    (u: string, s: string) =>
      match specifierTransform(u, s)
      case Throw => Throw
      case Return(answer) => Return(answer.GetOr(s))
  }

  /**
   * Inside a document a specifier becomes what it becomes in a module
   * served as JavaScript, and a call throws exactly when the callback does.
   */
  lemma DefaultedRewritesAlike(specifierTransform: SpecifierTransform, url: string, s: string)
    ensures NewValue(Always(Defaulted(specifierTransform)), url, s) == NewValue(specifierTransform, url, s)
    ensures Always(Defaulted(specifierTransform))(url, s).Throw? <==> specifierTransform(url, s).Throw?
  {
  }

  /** Every call the JavaScript strategy makes over a document's scripts gets the transform's URL. */
  lemma {:induction false} StrategyCallsURL(parse: JsParser, serialize: JsSerializer, transform: AstTransform,
                                            texts: seq<string>)
    ensures forall c | c in CallsOf(Each(texts, Bound(SourceStrategy(parse, serialize), transform))) ::
              c.url == transform.url
  {
    if texts != [] {
      var init := texts[..|texts| - 1];
      var rewrites := Each(texts, Bound(SourceStrategy(parse, serialize), transform));
      StrategyCallsURL(parse, serialize, transform, init);
      SourceStrategyCalls(parse, serialize, texts[|texts| - 1], transform);
      assert rewrites[..|rewrites| - 1] == Each(init, Bound(SourceStrategy(parse, serialize), transform));
    }
  }

  /**
   * `transformHTML(ast, url, countedSpecifierTransform, jsSourceStrategy)`
   * on the parsed document: its inline module scripts go through
   * `jsSourceStrategy` with the AST transform bound to the document's base
   * URL, so every callback call gets that URL; the document stays
   * well-formed.
   */
  method TransformDocument(ghost ns: set<Node>, root: Node, url: string, specifierTransform: SpecifierTransform,
                           jsParser: JsParser, jsSerializer: JsSerializer, resolveURL: UrlResolver)
      returns (ghost ns': set<Node>, calls: seq<Invocation>, threw: bool, ghost baseURL: string,
               ghost scripts: seq<Node>, ghost texts: seq<string>, ghost rewrites: seq<Rewrite>)
    requires root in ns && Document(ns) && WellFormed(Snap(ns))
    modifies ns`childNodes, ns`value, ns`data
    ensures baseURL == old(GetBaseURL(ns, root, url, resolveURL))
    ensures scripts == old(GetInlineModuleScripts(ns, root))
    ensures forall c | c in calls :: c.url == baseURL
    ensures ns <= ns' && Document(ns') && WellFormed(Snap(ns')) && fresh(ns' - ns)
    ensures RewroteAll(ns', scripts,
                       Bound(SourceStrategy(jsParser, jsSerializer), ModuleTransform(baseURL, Defaulted(specifierTransform))),
                       calls, threw, texts, rewrites)
    ensures Ran(Bound(SourceStrategy(jsParser, jsSerializer), ModuleTransform(baseURL, Defaulted(specifierTransform))),
                texts, rewrites, calls, threw)
    ensures |texts| <= |scripts| && (!threw ==> |texts| == |scripts|)
    ensures old(TextsRead(ns, GetInlineModuleScripts(ns, root), texts))
  {
    baseURL := GetBaseURL(ns, root, url, resolveURL);
    scripts := GetInlineModuleScripts(ns, root);
    ns', calls, threw, texts, rewrites :=
      TransformHtmlAst.TransformHTMLAST(ns, root, url, Defaulted(specifierTransform), SourceStrategy(jsParser, jsSerializer),
                                        resolveURL);
    StrategyCallsURL(jsParser, jsSerializer, ModuleTransform(baseURL, Defaulted(specifierTransform)), texts);
  }

  /**
   * `defaultHTMLSerializer`: the fake root elements are unwrapped in place,
   * then parse5 serializes the document.
   */
  method DefaultHtmlSerializer(ghost ns: set<Node>, root: Node, parse5Serialize: HtmlSerializer) returns (html: string)
    requires root in ns && Document(ns) && WellFormed(Snap(ns)) && Closed(Snap(ns)) && root.parentNode == null
    modifies ns`childNodes, ns`parentNode
    ensures Snap(ns) == RemoveFakeRootElementsT(old(Snap(ns)), root) && Document(ns)
    ensures forall x | x in PreOrder(Snap(ns), root) :: x == root || !IsFakeRoot(x)
    ensures Serialized(parse5Serialize, ns, root, html)
  {
    ghost var unwrapped := UnwrapFakeRoots(ns, root);
    html := parse5Serialize(ToHtml(ns, root));
  }

  /** `html` is what `serialize` makes of the document below `root`. */
  ghost predicate Serialized(serialize: HtmlSerializer, ns: set<Node>, root: Node, html: string)
    reads ns
  {
    root in ns && HeapRanked(ns) && html == serialize(ToHtml(ns, root))
  }

  /**
   * `htmlSourceStrategy(body, (ast) => transformHTML(...))` from the
   * document `root` the HTML parser returned for the body: the document is
   * transformed as `TransformDocument` says, then serialized, by the
   * user's serializer as it stands, or by the default one.
   */
  method HtmlSource(ghost ns: set<Node>, root: Node, url: string, specifierTransform: SpecifierTransform,
                    jsParser: JsParser, jsSerializer: JsSerializer, htmlSerializer: Option<HtmlSerializer>,
                    parse5Serialize: HtmlSerializer, resolveURL: UrlResolver)
      returns (ghost ns': set<Node>, out: Completion<string>, calls: seq<Invocation>, ghost baseURL: string,
               ghost scripts: seq<Node>, ghost texts: seq<string>, ghost rewrites: seq<Rewrite>,
               ghost transformed: Tree)
    requires root in ns && Document(ns) && WellFormed(Snap(ns)) && root.parentNode == null
    modifies ns`childNodes, ns`parentNode, ns`value, ns`data
    ensures baseURL == old(GetBaseURL(ns, root, url, resolveURL))
    ensures scripts == old(GetInlineModuleScripts(ns, root))
    ensures forall c | c in calls :: c.url == baseURL
    ensures Ran(Bound(SourceStrategy(jsParser, jsSerializer), ModuleTransform(baseURL, Defaulted(specifierTransform))),
                texts, rewrites, calls, out.Throw?)
    ensures |texts| <= |scripts| && (out.Return? ==> |texts| == |scripts|)
    ensures old(TextsRead(ns, GetInlineModuleScripts(ns, root), texts))
    ensures ns <= ns' && Document(ns')
    ensures WellFormed(transformed) && Closed(transformed) && root in transformed.kids
    ensures out.Throw? || htmlSerializer.Some? ==> Snap(ns') == transformed
    ensures out.Return? && htmlSerializer.Some? ==>
              && RewroteAll(ns', scripts,
                            Bound(SourceStrategy(jsParser, jsSerializer), ModuleTransform(baseURL, Defaulted(specifierTransform))),
                            calls, false, texts, rewrites)
              && Serialized(htmlSerializer.value, ns', root, out.value)
    ensures out.Return? && htmlSerializer.None? ==>
              && Snap(ns') == RemoveFakeRootElementsT(transformed, root)
              && Walked(transformed, Values(ns'), scripts, rewrites)
              && Serialized(parse5Serialize, ns', root, out.value)
  {
    var threw;
    ns', calls, threw, baseURL, scripts, texts, rewrites :=
      TransformDocument(ns, root, url, specifierTransform, jsParser, jsSerializer, resolveURL);
    transformed := Snap(ns');
    DocumentClosed(ns');
    if threw {
      out := Throw;
    } else {
      RewroteAllWalked(ns', scripts, Bound(SourceStrategy(jsParser, jsSerializer),
                                          ModuleTransform(baseURL, Defaulted(specifierTransform))),
                       calls, false, texts, rewrites);
      var html := SerializeDocument(ns', root, htmlSerializer, parse5Serialize);
      out := Return(html);
    }
  }

  /**
   * The HTML serializer as defaulted: the user's one, which leaves the
   * document as it is, or `defaultHTMLSerializer`, which unwraps the fake
   * root elements first.
   */
  method SerializeDocument(ghost ns: set<Node>, root: Node, htmlSerializer: Option<HtmlSerializer>,
                           parse5Serialize: HtmlSerializer) returns (html: string)
    requires root in ns && Document(ns) && WellFormed(Snap(ns)) && Closed(Snap(ns)) && root.parentNode == null
    modifies ns`childNodes, ns`parentNode
    ensures Document(ns) && Values(ns) == old(Values(ns))
    ensures htmlSerializer.Some? ==> unchanged(ns) && Serialized(htmlSerializer.value, ns, root, html)
    ensures htmlSerializer.None? ==>
              Snap(ns) == RemoveFakeRootElementsT(old(Snap(ns)), root) && Serialized(parse5Serialize, ns, root, html)
  {
    if htmlSerializer.Some? {
      html := htmlSerializer.value(ToHtml(ns, root));
    } else {
      html := DefaultHtmlSerializer(ns, root, parse5Serialize);
    }
  }

  // ---- The middleware ----

  /** The decimal digits of `n`, as a template literal prints a count. */
  function Decimal(n: nat): string
  {
    if n < 10 then ["0123456789"[n]] else Decimal(n / 10) + ["0123456789"[n % 10]]
  }

  /** The arguments of the info line reporting `count` substitutions in `url`. */
  function InfoArgs(count: nat, url: string): seq<string>
  {
    ["Transformed " + Decimal(count) + " module specifier(s) in \"" + url + "\""]
  }

  /** The arguments of the error line for `url`. */
  function ErrorArgs(url: string): seq<string>
  {
    ["Unable to transform module specifiers in \"" + url + "\" due to"]
  }

  /** A call of one log function delivers at most one line, exactly one when it is a host sink. */
  lemma {:induction false} OneLinePerCall(f: LogFunction, args: seq<string>)
    ensures |Invoke(f, args)| <= 1
    ensures f.Sink? ==> Invoke(f, args) == [Line(f.name, args)]
    decreases f
  {
    match f
    case Sink(_) =>
    case Wrapped(prefix, inner, level) =>
      if inner.Some? && level in inner.value.methods {
        OneLinePerCall(inner.value.methods[level], [prefix] + args);
      }
  }

  /**
   * The error boundary logs one line at most, naming the URL; with the
   * console as logger it is exactly the one line.
   */
  lemma ErrorLine(logger: Logger, url: string)
    ensures |Emit(logger, "error", ErrorArgs(url))| <= 1
    ensures Emit(ConsoleLike(), "error", ErrorArgs(url)) == [Line("error", ErrorArgs(url))]
  {
    if "error" in logger.methods {
      OneLinePerCall(logger.methods["error"], ErrorArgs(url));
    }
    assert "error" in LogLevels;
  }

  /**
   * What serving an HTML body left behind, as `HtmlSource` states it:
   * `rewrite` was handed `texts` and ran to `rewrites` and `calls`; the
   * rewritten document `transformed` is `ns'`, or its fake root elements
   * were unwrapped; and `out`, when it returns, is the serializer's
   * output for that document, in which each rewritten script holds the
   * text it was rewritten to.
   */
  ghost predicate HtmlServed(ns': set<Node>, root: Node, htmlSerializer: Option<HtmlSerializer>,
                             parse5Serialize: HtmlSerializer, rewrite: string -> Rewrite, out: Completion<string>,
                             calls: seq<Invocation>, scripts: seq<Node>, texts: seq<string>, rewrites: seq<Rewrite>,
                             transformed: Tree)
    reads ns'
  {
    && Ran(rewrite, texts, rewrites, calls, out.Throw?)
    && |texts| <= |scripts| && (out.Return? ==> |texts| == |scripts|)
    && Document(ns')
    && WellFormed(transformed) && Closed(transformed) && root in transformed.kids
    && (out.Throw? || htmlSerializer.Some? ==> Snap(ns') == transformed)
    && (out.Return? && htmlSerializer.Some? ==>
          RewroteAll(ns', scripts, rewrite, calls, false, texts, rewrites)
          && Serialized(htmlSerializer.value, ns', root, out.value))
    && (out.Return? && htmlSerializer.None? ==>
          && Snap(ns') == RemoveFakeRootElementsT(transformed, root)
          && Walked(transformed, Values(ns'), scripts, rewrites)
          && Serialized(parse5Serialize, ns', root, out.value))
  }

  /** `HtmlServed` speaks of the document's nodes alone: it survives a change to anything else. */
  twostate lemma ServedKept(new ns': set<Node>, new root: Node, new htmlSerializer: Option<HtmlSerializer>,
                            new parse5Serialize: HtmlSerializer, new rewrite: string -> Rewrite, new out: Completion<string>,
                            new calls: seq<Invocation>, new scripts: seq<Node>, new texts: seq<string>, new rewrites: seq<Rewrite>,
                            new transformed: Tree)
    requires old(allocated(ns')) && old(allocated(root)) && old(allocated(scripts)) && old(allocated(transformed))
    requires unchanged(ns')
    requires old(HtmlServed(ns', root, htmlSerializer, parse5Serialize, rewrite, out, calls, scripts, texts, rewrites, transformed))
    ensures HtmlServed(ns', root, htmlSerializer, parse5Serialize, rewrite, out, calls, scripts, texts, rewrites, transformed)
  {
  }

  /**
   * The source strategy the middleware picks for a body it rewrites: the
   * HTML one on the parsed document when the response is HTML, the
   * JavaScript one on the body otherwise.
   */
  method TransformBody(body: string, isHtml: bool, url: string, specifierTransform: SpecifierTransform,
                       jsParser: JsParser, jsSerializer: JsSerializer, htmlSerializer: Option<HtmlSerializer>,
                       parse5Serialize: HtmlSerializer, resolveURL: UrlResolver, ghost ns: set<Node>, document: Completion<Node>)
      returns (out: Completion<string>, calls: seq<Invocation>, ghost baseURL: string, ghost ns': set<Node>,
               ghost scripts: seq<Node>, ghost texts: seq<string>, ghost rewrites: seq<Rewrite>, ghost transformed: Tree)
    requires isHtml && document.Return? ==>
               document.value in ns && Document(ns) && WellFormed(Snap(ns)) && document.value.parentNode == null
    modifies ns`childNodes, ns`parentNode, ns`value, ns`data
    ensures !isHtml ==> Rewrite(out, calls) == Strategy(jsParser, jsSerializer, body, AstTransform(url, specifierTransform))
    ensures isHtml && document.Throw? ==> out.Throw? && calls == []
    ensures isHtml && document.Return? ==>
              && baseURL == old(GetBaseURL(ns, document.value, url, resolveURL))
              && scripts == old(GetInlineModuleScripts(ns, document.value))
              && (forall c | c in calls :: c.url == baseURL)
              && ns <= ns'
              && HtmlServed(ns', document.value, htmlSerializer, parse5Serialize,
                            Bound(SourceStrategy(jsParser, jsSerializer), ModuleTransform(baseURL, Defaulted(specifierTransform))),
                            out, calls, scripts, texts, rewrites, transformed)
              && old(TextsRead(ns, GetInlineModuleScripts(ns, document.value), texts))
  {
    baseURL := url;
    ns', scripts, texts, rewrites, transformed := ns, [], [], [], Tree(map[], map[]);
    if isHtml {
      if document.Throw? {
        out, calls := Throw, [];
      } else {
        ns', out, calls, baseURL, scripts, texts, rewrites, transformed :=
          HtmlSource(ns, document.value, url, specifierTransform, jsParser, jsSerializer, htmlSerializer,
                     parse5Serialize, resolveURL);
      }
    } else {
      out, calls := RunSourceStrategy(body, AstTransform(url, specifierTransform), jsParser, jsSerializer);
    }
  }

  /** The response the middleware works on: its body, read as a string. */
  class Context {
    var body: string

    /**
     * Sets the body to `b`. The write touches no node of the served
     * document, so what `HtmlServed` said of it still holds afterwards.
     */
    method Commit(b: string, ghost ns': set<Node>, ghost root: Node,
                  ghost htmlSerializer: Option<HtmlSerializer>, ghost parse5Serialize: HtmlSerializer,
                  ghost rewrite: string -> Rewrite, ghost out: Completion<string>, ghost calls: seq<Invocation>,
                  ghost scripts: seq<Node>, ghost texts: seq<string>, ghost rewrites: seq<Rewrite>, ghost transformed: Tree)
      requires HtmlServed(ns', root, htmlSerializer, parse5Serialize, rewrite, out, calls, scripts, texts, rewrites, transformed)
      modifies this
      ensures body == b
      ensures HtmlServed(ns', root, htmlSerializer, parse5Serialize, rewrite, out, calls, scripts, texts, rewrites, transformed)
    {
      body := b;
      ServedKept(ns', root, htmlSerializer, parse5Serialize, rewrite, out, calls, scripts, texts, rewrites, transformed);
    }
  }

  /**
   * The middleware, after the rest of the chain has run. A response that
   * is neither HTML nor JavaScript, or has an empty body, is left as it is
   * and nothing is logged. Otherwise the body is rewritten, HTML taking
   * precedence over JavaScript: when that returns, the new body is the
   * output in the original body's surrounding whitespace, and an info line
   * reports the substitutions if there were any; when anything throws, the
   * body is kept and one error line is logged. `document` is what the HTML
   * parser returned for the body (`Throw` for a parse error).
   */
  method Respond(ctx: Context, isHtml: bool, isJs: bool, url: string, specifierTransform: SpecifierTransform,
                 logger: Logger, jsParser: JsParser, jsSerializer: JsSerializer, htmlSerializer: Option<HtmlSerializer>,
                 parse5Serialize: HtmlSerializer, resolveURL: UrlResolver, ghost ns: set<Node>, document: Completion<Node>)
      returns (lines: seq<Line>, ghost outcome: Option<Completion<string>>, calls: seq<Invocation>, ghost baseURL: string,
               ghost ns': set<Node>, ghost scripts: seq<Node>, ghost texts: seq<string>, ghost rewrites: seq<Rewrite>,
               ghost transformed: Tree)
    requires isHtml && document.Return? ==>
               document.value in ns && Document(ns) && WellFormed(Snap(ns)) && document.value.parentNode == null
    modifies ctx, ns`childNodes, ns`parentNode, ns`value, ns`data
    ensures outcome.None? <==> !(isHtml || isJs) || old(ctx.body) == ""
    ensures outcome.None? ==> ctx.body == old(ctx.body) && lines == [] && calls == []
    ensures outcome == Some(Throw) ==> ctx.body == old(ctx.body) && lines == Emit(logger, "error", ErrorArgs(url))
    ensures outcome.Some? && outcome.value.Return? ==>
              && ctx.body == PreserveOriginalWhitespaceBuffer(old(ctx.body), outcome.value.value)
              && lines == if Substitutions(specifierTransform, calls) > 0
                          then Emit(logger, "info", InfoArgs(Substitutions(specifierTransform, calls), url))
                          else []
    ensures outcome.Some? && !isHtml ==>
              Rewrite(outcome.value, calls) == Strategy(jsParser, jsSerializer, old(ctx.body), AstTransform(url, specifierTransform))
    ensures outcome.Some? && isHtml && document.Throw? ==> outcome.value.Throw? && calls == []
    ensures outcome.Some? && isHtml && document.Return? ==>
              && baseURL == old(GetBaseURL(ns, document.value, url, resolveURL))
              && scripts == old(GetInlineModuleScripts(ns, document.value))
              && (forall c | c in calls :: c.url == baseURL)
              && ns <= ns'
              && HtmlServed(ns', document.value, htmlSerializer, parse5Serialize,
                            Bound(SourceStrategy(jsParser, jsSerializer), ModuleTransform(baseURL, Defaulted(specifierTransform))),
                            outcome.value, calls, scripts, texts, rewrites, transformed)
              && old(TextsRead(ns, GetInlineModuleScripts(ns, document.value), texts))
  {
    lines, outcome, calls, baseURL := [], None, [], url;
    ns', scripts, texts, rewrites, transformed := ns, [], [], [], Tree(map[], map[]);
    if !(isHtml || isJs) {
      return;
    }
    var body := ctx.body;
    if body == "" {
      return;
    }
    var out;
    out, calls, baseURL, ns', scripts, texts, rewrites, transformed := TransformBody(body, isHtml, url, specifierTransform, jsParser, jsSerializer, htmlSerializer,
                                         parse5Serialize, resolveURL, ns, document);
    outcome := Some(out);
    if out.Throw? {
      lines := Emit(logger, "error", ErrorArgs(url));
      return;
    }
    if isHtml && document.Return? {
      ctx.Commit(PreserveOriginalWhitespaceBuffer(body, out.value), ns', document.value, htmlSerializer, parse5Serialize,
                 Bound(SourceStrategy(jsParser, jsSerializer), ModuleTransform(baseURL, Defaulted(specifierTransform))),
                 out, calls, scripts, texts, rewrites, transformed);
    } else {
      ctx.body := PreserveOriginalWhitespaceBuffer(body, out.value);
    }
    var count := CountSubstitutions(specifierTransform, calls);
    if count > 0 {
      lines := Emit(logger, "info", InfoArgs(count, url));
    }
  }
}
