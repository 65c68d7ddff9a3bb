/**
 * Rewriting the inline module scripts of an HTML document
 * (src/transform-html.ts). The document is a parse5 node graph; the base
 * URL is taken once per document from its first `<base>` element, and
 * every `<script type="module">` without a `src` has its text run through
 * the JavaScript module rewriter and put back as a single text node.
 */
module TransformHtml {
  import opened Wrappers
  import opened JsString
  import opened Parse5Tree
  import opened Parse5Utils
  import opened Parse5FakeRoots
  import opened TransformJsModule
  import opened TransformJavaScriptModule

  /** `url.resolve(from, to)`. */
  type UrlResolver = (string, string) -> string

  /**
   * The node graph a parser hands over: ranked children (no cycle) and
   * every parent kind above the lowest rank, so a text node can be put
   * under it.
   */
  ghost predicate Document(ns: set<Node>)
    reads ns
  {
    && HeapRanked(ns)
    && (forall n | n in ns :: IsParent(n) ==> n.height > 0)
    && (forall n | n in ns :: n.parentNode == null || n.parentNode in ns)
  }

  /** A document's snapshot is closed: every child and every parent is a node of it. */
  lemma DocumentClosed(ns: set<Node>)
    requires Document(ns)
    ensures Closed(Snap(ns))
  {
  }

  /** The nodes of the document below `ast`, in `depthFirst` order. */
  ghost function DocumentOrder(ns: set<Node>, ast: Node): (r: seq<Node>)
    reads ns
    requires ast in ns && HeapRanked(ns)
    ensures forall x | x in r :: x in ns
  {
    HeapRankedSnap(ns);
    PreOrderInside(Snap(ns), ast);
    PreOrder(Snap(ns), ast)
  }

  /** Position `i` holds the first node named `name` of `walk`. */
  ghost predicate FirstNamed(walk: seq<Node>, i: int, name: string)
  {
    && 0 <= i < |walk| && walk[i].nodeName == name
    && forall j | 0 <= j < i :: walk[j].nodeName != name
  }

  function NameIs(name: string): Node -> bool
  {
    (n: Node) => n.nodeName == name
  }

  /** The first item kept by a filter is the first item of the list passing it. */
  lemma {:induction false} KeepFirst(items: seq<Node>, name: string)
    ensures Keep(items, NameIs(name)) == [] <==> forall x | x in items :: x.nodeName != name
    ensures Keep(items, NameIs(name)) != [] ==>
              exists i :: FirstNamed(items, i, name) && items[i] == Keep(items, NameIs(name))[0]
  {
    if items != [] {
      KeepFirst(items[1..], name);
      if items[0].nodeName == name {
        assert FirstNamed(items, 0, name);
      } else if Keep(items[1..], NameIs(name)) != [] {
        var i :| FirstNamed(items[1..], i, name) && items[1..][i] == Keep(items[1..], NameIs(name))[0];
        assert FirstNamed(items, i + 1, name);
      } else {
        assert forall x | x in items :: x == items[0] || x in items[1..];
      }
    }
  }

  /** `getTags`: the nodes named `name`, in document order. */
  function GetTags(ghost ns: set<Node>, ast: Node, name: string): (r: seq<Node>)
    reads ns
    requires ast in ns && HeapRanked(ns)
    ensures forall x | x in r :: x in ns && x in DocumentOrder(ns, ast) && x.nodeName == name
    ensures forall x | x in DocumentOrder(ns, ast) && x.nodeName == name :: x in r
    ensures r == Keep(DocumentOrder(ns, ast), NameIs(name))
  {
    var walk := DepthFirst(ns, ast);
    assert walk == DocumentOrder(ns, ast);
    KeepNamed(walk, name);
    Keep(walk, NameIs(name))
  }

  /** Filtering by name keeps exactly the nodes of that name. */
  lemma KeepNamed(walk: seq<Node>, name: string)
    ensures forall x | x in Keep(walk, NameIs(name)) :: x in walk && x.nodeName == name
    ensures forall x | x in walk && x.nodeName == name :: x in Keep(walk, NameIs(name))
  {
    forall x
      ensures x in Keep(walk, NameIs(name)) <==> x in walk && x.nodeName == name
    {
      KeepMembers(walk, NameIs(name), x);
    }
  }

  /** `getBaseTag`: the first `<base>` in document order, if any. */
  function GetBaseTag(ghost ns: set<Node>, ast: Node): (r: Option<Node>)
    reads ns
    requires ast in ns && HeapRanked(ns)
    ensures r.None? <==> forall x | x in DocumentOrder(ns, ast) :: x.nodeName != "base"
    ensures r.Some? ==> r.value in ns
                        && exists i :: FirstNamed(DocumentOrder(ns, ast), i, "base") && DocumentOrder(ns, ast)[i] == r.value
  {
    var tags := GetTags(ns, ast, "base");
    KeepFirst(DocumentOrder(ns, ast), "base");
    if tags == [] then None else Some(tags[0])
  }

  /** Only one position can hold the first node of a name. */
  lemma FirstNamedUnique(walk: seq<Node>, i: int, j: int, name: string)
    requires FirstNamed(walk, i, name) && FirstNamed(walk, j, name)
    ensures i == j
  {
  }

  /**
   * `getBaseURL`: with no `<base>`, or when the first `<base>` in document
   * order has an empty or missing `href`, the request URL; otherwise that
   * `href` resolved against the request URL. A later `<base>` is never
   * consulted, even when the first has no `href`.
   */
  function GetBaseURL(ghost ns: set<Node>, ast: Node, location: string, resolveURL: UrlResolver): (r: string)
    reads ns
    requires ast in ns && HeapRanked(ns)
    ensures BaseURLOf(DocumentOrder(ns, ast), location, resolveURL, r)
    ensures r == BaseURLFrom(GetTags(ns, ast, "base"), location, resolveURL)
  {
    var baseTag := GetBaseTag(ns, ast);
    BaseTagIsFirst(ns, ast, baseTag);
    if baseTag.None? then location
    else
      var baseHref := GetAttr(baseTag.value, "href");
      if baseHref == "" then location else resolveURL(location, baseHref)
  }

  /** The base URL the first of `bases`, if any, makes of `location`. */
  function BaseURLFrom(bases: seq<Node>, location: string, resolveURL: UrlResolver): string
    reads bases`attrs
  {
    if bases == [] then location
    else
      var baseHref := GetAttr(bases[0], "href");
      if baseHref == "" then location else resolveURL(location, baseHref)
  }

  lemma BaseTagIsFirst(ns: set<Node>, ast: Node, baseTag: Option<Node>)
    requires ast in ns && HeapRanked(ns) && baseTag == GetBaseTag(ns, ast)
    ensures forall i | FirstNamed(DocumentOrder(ns, ast), i, "base") ::
              baseTag.Some? && baseTag.value == DocumentOrder(ns, ast)[i]
  {
    var walk := DocumentOrder(ns, ast);
    forall i | FirstNamed(walk, i, "base")
      ensures baseTag.Some? && baseTag.value == walk[i]
    {
      assert walk[i] in walk;
      var k :| FirstNamed(walk, k, "base") && walk[k] == baseTag.value;
      FirstNamedUnique(walk, i, k, "base");
    }
  }

  /** `type === 'module' && !src`: a module script whose code is inline. */
  predicate IsInlineModule(n: Node)
    reads n`attrs
  {
    GetAttr(n, "type") == "module" && GetAttr(n, "src") == ""
  }

  /** The `filter` of `getInlineModuleScripts`, in order. */
  function InlineModules(tags: seq<Node>): (r: seq<Node>)
    reads tags`attrs
    ensures forall x | x in r :: x in tags && IsInlineModule(x)
    ensures forall x | x in tags && IsInlineModule(x) :: x in r
  {
    if tags == [] then []
    else
      var rest := InlineModules(tags[1..]);
      assert forall x | x in tags :: x == tags[0] || x in tags[1..];
      (if IsInlineModule(tags[0]) then [tags[0]] else []) + rest
  }

  /** Which tags are inline modules depends on their attributes only. */
  twostate lemma {:induction false} InlineModulesFramed(tags: seq<Node>)
    requires forall x | x in tags :: old(allocated(x)) && x.attrs == old(x.attrs)
    ensures InlineModules(tags) == old(InlineModules(tags))
  {
    if tags != [] {
      InlineModulesFramed(tags[1..]);
    }
  }

  /** The `href` of the first tag depends on its attributes only. */
  twostate lemma FirstHrefFramed(tags: seq<Node>)
    requires forall x | x in tags :: old(allocated(x)) && x.attrs == old(x.attrs)
    ensures tags != [] ==> GetAttr(tags[0], "href") == old(GetAttr(tags[0], "href"))
  {
    if tags != [] {
      assert tags[0] in tags;
    }
  }

  /** `getInlineModuleScripts`: the `<script type="module">` elements without `src`, in document order. */
  function GetInlineModuleScripts(ghost ns: set<Node>, ast: Node): (r: seq<Node>)
    reads ns
    requires ast in ns && HeapRanked(ns)
    ensures forall x | x in r :: x in ns
    ensures InlineModulesOf(DocumentOrder(ns, ast), r)
  {
    InlineModules(GetTags(ns, ast, "script"))
  }

  /** `scripts` holds exactly the inline module scripts of `walk`. */
  ghost predicate InlineModulesOf(walk: seq<Node>, scripts: seq<Node>)
    reads walk`attrs
  {
    && (forall x | x in scripts :: x in walk && x.nodeName == "script" && IsInlineModule(x))
    && (forall x | x in walk && x.nodeName == "script" && IsInlineModule(x) :: x in scripts)
  }

  /**
   * `baseURL` is what the first `<base>` of `walk` makes of `location`:
   * `location` itself when there is no `<base>` or its `href` is empty,
   * otherwise that `href` resolved against `location`.
   */
  ghost predicate BaseURLOf(walk: seq<Node>, location: string, resolveURL: UrlResolver, baseURL: string)
    reads walk`attrs
  {
    && ((forall x | x in walk :: x.nodeName != "base") ==> baseURL == location)
    && (forall i | FirstNamed(walk, i, "base") ::
          var href := GetAttr(walk[i], "href");
          baseURL == if href == "" then location else resolveURL(location, href))
  }

  // ---- Rewriting the scripts ----

  /** The calls of the rewrites, one rewrite after another. */
  function CallsOf(rewrites: seq<Rewrite>): seq<Invocation>
  {
    if rewrites == [] then [] else CallsOf(rewrites[..|rewrites| - 1]) + rewrites[|rewrites| - 1].calls
  }

  lemma CallsOfSnoc(rewrites: seq<Rewrite>, w: Rewrite)
    ensures CallsOf(rewrites + [w]) == CallsOf(rewrites) + w.calls
  {
    assert (rewrites + [w])[..|rewrites|] == rewrites;
  }

  /**
   * What the script loop has done so far: the first `|rewrites|` scripts
   * were rewritten in order (the last one possibly throwing), and each
   * rewritten script not met again later holds one text node with its
   * output.
   */
  ghost predicate Rewritten(scripts: seq<Node>, rewrites: seq<Rewrite>, tns: seq<Node>)
    reads scripts, tns
  {
    && |tns| == |rewrites| <= |scripts|
    && (forall j | 0 <= j < |rewrites| && rewrites[j].result.Return? && scripts[j] !in scripts[j + 1..|rewrites|] ::
          && scripts[j].childNodes == [tns[j]] && tns[j].childNodes == []
          && IsTextNode(tns[j]) && tns[j].value == rewrites[j].result.value)
  }

  /**
   * `setTextContent` on a script element: its children become one fresh
   * text node holding `value`, and the document stays well-formed.
   */
  method SetScriptText(ghost ns: set<Node>, script: Node, value: string) returns (ghost ns': set<Node>, ghost tn: Node)
    requires script in ns && Document(ns) && script.nodeName == "script"
    modifies script`childNodes, script`value, script`data
    ensures ns' == ns + {tn} && tn !in ns && Document(ns')
    ensures script.childNodes == [tn] && IsTextNode(tn) && tn.value == value && tn.childNodes == []
    ensures WellFormed(old(Snap(ns))) ==> WellFormed(Snap(ns'))
    ensures fresh(tn)
  {
    assert !StartsWith(script.nodeName, "#") by {
      assert script.nodeName[0] == 's';
    }
    ghost var t0 := Snap(ns);
    ns' := SetTextContent(ns, script, value);
    tn :| tn !in ns && fresh(tn) && IsTextNode(tn) && ns' == ns + {tn}
          && Snap(ns').kids == t0.kids[script := [tn]][tn := []]
          && Snap(ns').parent == t0.parent[tn := script];
    assert Snap(ns').kids[script] == script.childNodes;
    assert Snap(ns').kids[tn] == tn.childNodes;
    KindsOverlapInElementsOnly(tn);
    TextOnlyChild(ns', script, tn);
    if WellFormed(t0) {
      assert tn in script.childNodes;
      TextChildWellFormed(t0, script, tn);
      assert Snap(ns') == Tree(t0.kids[script := [tn]][tn := []], t0.parent[tn := script]);
    }
  }

  /** Replacing a parent's children by one new text node pointing back at it keeps a snapshot well-formed. */
  lemma TextChildWellFormed(t: Tree, script: Node, tn: Node)
    requires WellFormed(t) && script in t.kids && IsParent(script) && tn !in t.kids && IsTextNode(tn)
    requires tn.height < script.height
    ensures WellFormed(Tree(t.kids[script := [tn]][tn := []], t.parent[tn := script]))
  {
    KindsOverlapInElementsOnly(tn);
    TextChildEdges(t, script, tn);
    TextChildNodes(t, script, tn);
  }

  lemma TextChildEdges(t: Tree, script: Node, tn: Node)
    requires Ranked(t) && t.kids.Keys == t.parent.Keys
    requires forall n, c | n in t.kids && c in t.kids[n] :: IsChild(c) ==> t.parent[c] == n
    requires forall n, c | n in t.kids && c in t.kids[n] :: !IsChild(c) ==> IsDocument(n)
    requires script in t.kids && tn !in t.kids && IsChild(tn) && tn.height < script.height
    ensures var r := Tree(t.kids[script := [tn]][tn := []], t.parent[tn := script]);
            && r.kids.Keys == r.parent.Keys
            && Ranked(r)
            && (forall n, c | n in r.kids && c in r.kids[n] :: IsChild(c) ==> r.parent[c] == n)
            && (forall n, c | n in r.kids && c in r.kids[n] :: !IsChild(c) ==> IsDocument(n))
  {
    var r := Tree(t.kids[script := [tn]][tn := []], t.parent[tn := script]);
    forall n, c | n in r.kids && c in r.kids[n]
      ensures c in r.kids && c.height < n.height && (IsChild(c) ==> r.parent[c] == n) && (!IsChild(c) ==> IsDocument(n))
    {
      if n == script {
        assert c == tn;
      } else {
        assert n != tn && n in t.kids && r.kids[n] == t.kids[n];
        assert c in t.kids && c != tn;
      }
    }
  }

  lemma TextChildNodes(t: Tree, script: Node, tn: Node)
    requires forall n | n in t.kids :: Distinct(t.kids[n])
    requires forall n | n in t.kids :: !IsParent(n) ==> t.kids[n] == []
    requires forall n | n in t.kids :: IsParent(n) ==> n.height > 0
    requires script in t.kids && IsParent(script) && !IsParent(tn)
    ensures var r := Tree(t.kids[script := [tn]][tn := []], t.parent[tn := script]);
            && (forall n | n in r.kids :: Distinct(r.kids[n]))
            && (forall n | n in r.kids :: !IsParent(n) ==> r.kids[n] == [])
            && (forall n | n in r.kids :: IsParent(n) ==> n.height > 0)
  {
    var r := Tree(t.kids[script := [tn]][tn := []], t.parent[tn := script]);
    forall n | n in r.kids
      ensures Distinct(r.kids[n]) && (!IsParent(n) ==> r.kids[n] == []) && (IsParent(n) ==> n.height > 0)
    {
      if n != script && n != tn { assert r.kids[n] == t.kids[n]; }
    }
  }

  /** A step whose rewrite threw changes nothing and keeps `Rewritten`. */
  lemma ThrownStep(scripts: seq<Node>, rewrites: seq<Rewrite>, tns: seq<Node>, w: Rewrite, tn: Node)
    requires |tns| == |rewrites| < |scripts| && w.result.Throw?
    requires Rewritten(scripts, rewrites, tns)
    ensures Rewritten(scripts, rewrites + [w], tns + [tn])
  {
    var i := |rewrites|;
    forall j | 0 <= j < i && rewrites[j].result.Return? && scripts[j] !in scripts[j + 1..i + 1]
      ensures scripts[j] !in scripts[j + 1..i]
    {
      assert scripts[j + 1..i + 1] == scripts[j + 1..i] + [scripts[i]];
    }
  }

  /**
   * The step of the script loop whose rewrite returned: the script's text
   * is set, and `Rewritten` is kept, since no other script and no earlier
   * text node is touched.
   */
  method ReplaceScriptText(ghost ns: set<Node>, scripts: seq<Node>, i: nat, ghost rewrites: seq<Rewrite>,
                           ghost tns: seq<Node>, w: Rewrite)
      returns (ghost ns': set<Node>, ghost tn: Node)
    requires i == |tns| == |rewrites| < |scripts| && w.result.Return?
    requires scripts[i] in ns && Document(ns) && scripts[i].nodeName == "script"
    requires forall j | 0 <= j < i && rewrites[j].result.Return? :: tns[j] != scripts[i]
    requires Rewritten(scripts, rewrites, tns)
    modifies {scripts[i]}`childNodes, {scripts[i]}`value, {scripts[i]}`data
    ensures ns' == ns + {tn} && tn !in ns && Document(ns')
    ensures Rewritten(scripts, rewrites + [w], tns + [tn])
    ensures WellFormed(old(Snap(ns))) ==> WellFormed(Snap(ns'))
    ensures fresh(ns' - ns)
  {
    ns', tn := SetScriptText(ns, scripts[i], w.result.value);
    RewrittenStep(scripts, i, rewrites, tns, w, tn);
  }

  /** `Rewritten` survives a step that changed only the `i`-th script, giving it the text node `tn`. */
  twostate lemma RewrittenStep(new scripts: seq<Node>, new i: nat, new rewrites: seq<Rewrite>, new tns: seq<Node>,
                               new w: Rewrite, new tn: Node)
    requires old(allocated(scripts)) && old(allocated(tns))
    requires i == |tns| == |rewrites| < |scripts| && w.result.Return?
    requires old(Rewritten(scripts, rewrites, tns))
    requires forall j | 0 <= j < i && rewrites[j].result.Return? :: tns[j] != scripts[i]
    requires forall x: Node | x in scripts || x in tns :: x != scripts[i] ==> unchanged(x)
    requires scripts[i].childNodes == [tn] && tn.childNodes == [] && IsTextNode(tn) && tn.value == w.result.value
    ensures Rewritten(scripts, rewrites + [w], tns + [tn])
  {
    var rewrites' := rewrites + [w];
    var tns' := tns + [tn];
    forall j | 0 <= j < i + 1 && rewrites'[j].result.Return? && scripts[j] !in scripts[j + 1..i + 1]
      ensures && scripts[j].childNodes == [tns'[j]] && tns'[j].childNodes == []
              && IsTextNode(tns'[j]) && tns'[j].value == rewrites'[j].result.value
    {
      if j < i {
        EarlierScript(scripts, j, i);
        assert rewrites'[j] == rewrites[j] && tns'[j] == tns[j];
        assert old(scripts[j].childNodes) == [tns[j]];
        assert scripts[j] in scripts && tns[j] in tns && tns[j] != scripts[i];
      }
    }
  }

  /** A script not met again up to `i` is not met again before `i` either, and is not the `i`-th. */
  lemma EarlierScript(scripts: seq<Node>, j: nat, i: nat)
    requires j < i < |scripts| && scripts[j] !in scripts[j + 1..i + 1]
    ensures scripts[j] !in scripts[j + 1..i] && scripts[j] != scripts[i]
  {
    assert scripts[j + 1..i + 1] == scripts[j + 1..i] + [scripts[i]];
  }

  /** `transformJavaScriptModuleString` with everything but the source fixed. */
  function Rewriter(url: string, transformSpecifier: TransformSpecifierFunction,
                    parse: JsParser, serialize: JsSerializer): string -> Rewrite
  {
    (js: string) => ModuleString(js, url, transformSpecifier, parse, serialize)
  }

  /** The rewrites of a list of module texts, one after another. */
  function Each(texts: seq<string>, rewrite: string -> Rewrite): (r: seq<Rewrite>)
    ensures |r| == |texts|
  {
    if texts == [] then [] else Each(texts[..|texts| - 1], rewrite) + [rewrite(texts[|texts| - 1])]
  }

  lemma EachSnoc(texts: seq<string>, js: string, rewrite: string -> Rewrite)
    ensures Each(texts + [js], rewrite) == Each(texts, rewrite) + [rewrite(js)]
  {
    assert (texts + [js])[..|texts|] == texts;
  }

  lemma {:induction false} EachAt(texts: seq<string>, rewrite: string -> Rewrite)
    ensures forall j | 0 <= j < |texts| :: Each(texts, rewrite)[j] == rewrite(texts[j])
  {
    if texts != [] {
      var init := texts[..|texts| - 1];
      EachAt(init, rewrite);
      assert forall j | 0 <= j < |init| :: init[j] == texts[j];
    }
  }

  /**
   * The value side of the script loop: the texts met were rewritten one by
   * one with `rewrite`, every rewrite but the last returned, the loop
   * stopped at the first exception, and the calls are the rewrites' calls in
   * order.
   */
  ghost predicate Ran(rewrite: string -> Rewrite, texts: seq<string>, rewrites: seq<Rewrite>,
                      calls: seq<Invocation>, threw: bool)
  {
    && |texts| == |rewrites|
    && rewrites == Each(texts, rewrite)
    && (forall j | 0 <= j < |rewrites| - 1 :: rewrites[j].result.Return?)
    && (threw <==> 0 < |rewrites| && rewrites[|rewrites| - 1].result.Throw?)
    && calls == CallsOf(rewrites)
  }

  /** One more text rewritten after a run that has not thrown. */
  lemma RanStep(rewrite: string -> Rewrite, texts: seq<string>, rewrites: seq<Rewrite>,
                calls: seq<Invocation>, threw: bool, js: string, w: Rewrite)
    requires Ran(rewrite, texts, rewrites, calls, threw) && !threw && w == rewrite(js)
    ensures Ran(rewrite, texts + [js], rewrites + [w], calls + w.calls, w.result.Throw?)
  {
    CallsOfSnoc(rewrites, w);
    EachSnoc(texts, js, rewrite);
  }

  /**
   * What the script loop leaves behind: `Ran` over a prefix of `scripts`,
   * the whole of it unless a rewrite threw, and each rewritten script not
   * met again later reads back its output.
   */
  ghost predicate RewroteAll(ns: set<Node>, scripts: seq<Node>, rewrite: string -> Rewrite,
                             calls: seq<Invocation>, threw: bool, texts: seq<string>, rewrites: seq<Rewrite>)
    reads ns
  {
    && Ran(rewrite, texts, rewrites, calls, threw)
    && |rewrites| <= |scripts|
    && (!threw ==> |rewrites| == |scripts|)
    && HeapRanked(ns)
    && (forall j | 0 <= j < |rewrites| && rewrites[j].result.Return? && scripts[j] !in scripts[j + 1..|rewrites|] ::
          scripts[j] in ns && GetTextContent(ns, scripts[j]) == rewrites[j].result.value)
  }

  /**
   * The rewritten scripts, read in the snapshot `t` with text values
   * `vals`: every script rewritten to a value, and not met again later,
   * walks to that value.
   */
  ghost predicate Walked(t: Tree, vals: map<Node, string>, scripts: seq<Node>, rewrites: seq<Rewrite>)
    requires Ranked(t) && |rewrites| <= |scripts|
  {
    forall j | 0 <= j < |rewrites| && rewrites[j].result.Return? && scripts[j] !in scripts[j + 1..|rewrites|] ::
      WalkText(t, vals, scripts[j]) == rewrites[j].result.value
  }

  /** `RewroteAll` read in the snapshot of the document rather than in its heap. */
  lemma RewroteAllWalked(ns: set<Node>, scripts: seq<Node>, rewrite: string -> Rewrite,
                         calls: seq<Invocation>, threw: bool, texts: seq<string>, rewrites: seq<Rewrite>)
    requires RewroteAll(ns, scripts, rewrite, calls, threw, texts, rewrites)
    requires forall x | x in scripts :: x in ns && x.nodeName == "script"
    ensures Ranked(Snap(ns)) && Walked(Snap(ns), Values(ns), scripts, rewrites)
  {
    TextsAtStart(ns, scripts);
  }

  /**
   * What `transformHTMLAST` leaves behind when its scripts are `scripts`
   * and its base URL `baseURL`: the document only grew, by text nodes, and
   * stays a document; the scripts were rewritten by
   * `transformJavaScriptModuleString` against `baseURL`; and every call of
   * the callback got `baseURL`.
   */
  ghost predicate RewroteScripts(ns: set<Node>, ns': set<Node>, scripts: seq<Node>, baseURL: string,
                                 transformSpecifier: TransformSpecifierFunction, parse: JsParser, serialize: JsSerializer,
                                 calls: seq<Invocation>, threw: bool, texts: seq<string>, rewrites: seq<Rewrite>)
    reads ns'
  {
    && ns <= ns' && Document(ns')
    && RewroteAll(ns', scripts, Rewriter(baseURL, transformSpecifier, parse, serialize), calls, threw, texts, rewrites)
    && (forall c | c in calls :: c.url == baseURL)
  }

  /**
   * No script before the `j`-th lies on the walk from the `j`-th in `t`:
   * the script is met for the first time, and no script rewritten before
   * it holds it.
   */
  ghost predicate FirstBelow(t: Tree, scripts: seq<Node>, j: int)
    requires Ranked(t) && 0 <= j < |scripts|
  {
    forall k | 0 <= k < j :: scripts[k] !in PreOrder(t, scripts[j])
  }

  /**
   * The texts handed to the rewriter are the text content the scripts had
   * in the document `ns`, for every script `FirstBelow` holds of.
   */
  ghost predicate TextsRead(ns: set<Node>, scripts: seq<Node>, texts: seq<string>)
    reads ns
    requires HeapRanked(ns) && |texts| <= |scripts| && forall x | x in scripts :: x in ns
  {
    HeapRankedSnap(ns);
    forall j | 0 <= j < |texts| && FirstBelow(Snap(ns), scripts, j) :: texts[j] == GetTextContent(ns, scripts[j])
  }

  /**
   * The loop's side of `TextsRead`: each text met is the `WalkText` its
   * script had in the contents `before` the loop, for every script
   * `FirstBelow` holds of.
   */
  ghost predicate ReadAtStart(before: Contents, scripts: seq<Node>, texts: seq<string>)
    requires Ranked(before.tree) && |texts| <= |scripts|
  {
    forall j | 0 <= j < |texts| && FirstBelow(before.tree, scripts, j) ::
      texts[j] == WalkText(before.tree, before.values, scripts[j])
  }

  lemma ReadAtStartSnoc(before: Contents, scripts: seq<Node>, texts: seq<string>, js: string)
    requires Ranked(before.tree) && |texts| < |scripts| && ReadAtStart(before, scripts, texts)
    requires FirstBelow(before.tree, scripts, |texts|) ==> js == WalkText(before.tree, before.values, scripts[|texts|])
    ensures ReadAtStart(before, scripts, texts + [js])
  {
    var t := texts + [js];
    assert forall j | 0 <= j < |texts| :: t[j] == texts[j];
  }

  /** The child lists, `value`s and `data` of a document's nodes when the script loop began. */
  datatype Contents = Contents(tree: Tree, values: map<Node, string>, data: map<Node, string>)

  ghost function ContentsOf(ns: set<Node>): (c: Contents)
    reads ns
    ensures c.tree == Snap(ns) && c.values == Values(ns) && c.data.Keys == ns
  {
    Contents(Snap(ns), Values(ns), map n | n in ns :: n.data)
  }

  /** The scripts the loop has met in its first `k` turns. */
  ghost function Met(scripts: seq<Node>, k: nat): set<Node>
    requires k <= |scripts|
  {
    if k == 0 then {} else Met(scripts, k - 1) + {scripts[k - 1]}
  }

  /** A node none of the first `k` scripts is has not been met. */
  lemma {:induction false} NotMet(scripts: seq<Node>, k: nat, y: Node)
    requires k <= |scripts| && forall j | 0 <= j < k :: scripts[j] != y
    ensures y !in Met(scripts, k)
  {
    if k > 0 {
      NotMet(scripts, k - 1, y);
    }
  }

  /** Every node of `ns0` but those of `done` still has its children, `value` and `data` of `before`. */
  ghost predicate Untouched(ns0: set<Node>, done: set<Node>, before: Contents)
    reads ns0
  {
    forall n | n in ns0 && n !in done ::
      && n in before.tree.kids && n in before.values && n in before.data
      && n.childNodes == before.tree.kids[n] && n.value == before.values[n] && n.data == before.data[n]
  }

  /**
   * At the start of the loop every script's text content is its `WalkText`
   * in the snapshot then taken.
   */
  lemma TextsAtStart(ns: set<Node>, scripts: seq<Node>)
    requires HeapRanked(ns) && forall x | x in scripts :: x in ns && x.nodeName == "script"
    ensures Ranked(Snap(ns))
    ensures forall j | 0 <= j < |scripts| :: GetTextContent(ns, scripts[j]) == WalkText(Snap(ns), Values(ns), scripts[j])
  {
    HeapRankedSnap(ns);
    forall j | 0 <= j < |scripts|
      ensures GetTextContent(ns, scripts[j]) == WalkText(Snap(ns), Values(ns), scripts[j])
    {
      var s := scripts[j];
      assert s in scripts;
      assert s.nodeName[0] == 's';
      TextContentIs(ns, s);
    }
  }

  /**
   * A script no earlier script lies below reads, when the loop reaches it,
   * the text content it had when the loop began: only earlier scripts have
   * been touched, and none of them is on its walk.
   */
  lemma ReadUntouched(ns: set<Node>, ns0: set<Node>, scripts: seq<Node>, i: nat, before: Contents)
    requires HeapRanked(ns) && ns0 <= ns && Ranked(before.tree) && before.tree.kids.Keys == ns0
    requires i < |scripts| && scripts[i] in ns0 && scripts[i].nodeName == "script"
    requires Untouched(ns0, Met(scripts, i), before) && FirstBelow(before.tree, scripts, i)
    ensures GetTextContent(ns, scripts[i]) == WalkText(before.tree, before.values, scripts[i])
  {
    var s := scripts[i];
    assert s.nodeName[0] == 's';
    TextContentIs(ns, s);
    PreOrderInside(before.tree, s);
    var walk := PreOrder(before.tree, s);
    forall y | y in walk
      ensures y in ns0 && y !in Met(scripts, i)
    {
      NotMet(scripts, i, y);
    }
    WalkTextFramed(before.tree, Snap(ns), before.values, Values(ns), s);
  }

  /**
   * The heap side of the script loop: the document grew only by text
   * nodes and stays well-formed, the scripts rewritten so far read as
   * `Rewritten` says, no other node of the original document changed its
   * children, and no node changed its attributes.
   */
  ghost predicate Progress(ns0: set<Node>, ns: set<Node>, scripts: seq<Node>, before: Contents,
                           rewrites: seq<Rewrite>, tns: seq<Node>)
    reads ns, scripts, tns
  {
    && ns0 <= ns && Document(ns)
    && (forall x | x in scripts :: x in ns0 && x.nodeName == "script")
    && Rewritten(scripts, rewrites, tns)
    && (forall j | 0 <= j < |rewrites| && rewrites[j].result.Return? :: tns[j] !in ns0)
    && |rewrites| <= |scripts| && Untouched(ns0, Met(scripts, |rewrites|), before)
  }

  /** The node a turn of the script loop adds to the document: the new text node when the rewrite returned. */
  function Added(w: Rewrite, tn: Node): set<Node>
  {
    if w.result.Return? then {tn} else {}
  }

  /**
   * One turn of the script loop: a rewrite that threw changes nothing; one
   * that returned replaces the script's children by its output.
   */
  method RewriteStep(ghost ns0: set<Node>, ghost ns: set<Node>, scripts: seq<Node>, i: nat, ghost before: Contents,
                     ghost rewrites: seq<Rewrite>, ghost tns: seq<Node>, w: Rewrite)
      returns (ghost ns': set<Node>, ghost tn: Node)
    requires i == |rewrites| < |scripts|
    requires Progress(ns0, ns, scripts, before, rewrites, tns)
    modifies {scripts[i]}`childNodes, {scripts[i]}`value, {scripts[i]}`data
    ensures Progress(ns0, ns', scripts, before, rewrites + [w], tns + [tn])
    ensures WellFormed(old(Snap(ns))) ==> WellFormed(Snap(ns'))
    ensures ns' == ns + Added(w, tn) && (w.result.Return? ==> fresh(tn))
  {
    tn := scripts[i];
    ns' := ns;
    if w.result.Throw? {
      ThrownStep(scripts, rewrites, tns, w, tn);
    } else {
      assert scripts[i] in scripts;
      ns', tn := ReplaceScriptText(ns, scripts, i, rewrites, tns, w);
    }
    forall n | n in ns0 && n !in Met(scripts, i + 1)
      ensures && n in before.tree.kids && n in before.values && n in before.data
              && n.childNodes == before.tree.kids[n] && n.value == before.values[n] && n.data == before.data[n]
    {
      assert n != scripts[i] && n !in Met(scripts, i);
    }
  }

  /** One turn of the script loop: the script's current text is rewritten, and put back when the rewrite returns. */
  method RewriteScript(ghost ns0: set<Node>, ghost ns: set<Node>, scripts: seq<Node>, i: nat, ghost before: Contents,
                       ghost rewrites: seq<Rewrite>, ghost tns: seq<Node>, baseURL: string,
                       transformSpecifier: TransformSpecifierFunction, parse: JsParser, serialize: JsSerializer)
      returns (ghost ns': set<Node>, js: string, w: Rewrite, ghost tn: Node)
    requires i == |rewrites| < |scripts|
    requires Progress(ns0, ns, scripts, before, rewrites, tns)
    requires Ranked(before.tree) && before.tree.kids.Keys == ns0
    modifies {scripts[i]}`childNodes, {scripts[i]}`value, {scripts[i]}`data
    ensures Progress(ns0, ns', scripts, before, rewrites + [w], tns + [tn])
    ensures js == old(GetTextContent(ns, scripts[i]))
    ensures FirstBelow(before.tree, scripts, i) ==> js == WalkText(before.tree, before.values, scripts[i])
    ensures w == Rewriter(baseURL, transformSpecifier, parse, serialize)(js)
    ensures forall c | c in w.calls :: c.url == baseURL
  {
    assert scripts[i] in scripts;
    js := GetTextContent(ns, scripts[i]);
    if FirstBelow(before.tree, scripts, i) {
      ReadUntouched(ns, ns0, scripts, i, before);
    }
    var transformedJs, calls := TransformJavaScriptModuleString(js, baseURL, transformSpecifier, parse, serialize);
    w := Rewrite(transformedJs, calls);
    ModuleStringCalls(js, baseURL, transformSpecifier, parse, serialize);
    ns', tn := RewriteStep(ns0, ns, scripts, i, before, rewrites, tns, w);
  }

  /**
   * The loop of `transformHTMLAST` over `scripts`, all with one base URL:
   * each script's current text is rewritten and, when the rewrite returns,
   * put back; the first exception ends the loop.
   */
  method RewriteScripts(ghost ns: set<Node>, scripts: seq<Node>, baseURL: string,
                        transformSpecifier: TransformSpecifierFunction, parse: JsParser, serialize: JsSerializer)
      returns (ghost ns': set<Node>, calls: seq<Invocation>, threw: bool,
               ghost texts: seq<string>, ghost rewrites: seq<Rewrite>)
    requires Document(ns) && forall x | x in scripts :: x in ns && x.nodeName == "script"
    modifies ns`childNodes, ns`value, ns`data
    ensures RewroteScripts(ns, ns', scripts, baseURL, transformSpecifier, parse, serialize, calls, threw, texts, rewrites)
    ensures old(TextsRead(ns, scripts, texts))
    ensures forall n | n in ns && n !in scripts ::
              n.childNodes == old(n.childNodes) && n.value == old(n.value) && n.data == old(n.data)
  {
    ghost var before := ContentsOf(ns);
    TextsAtStart(ns, scripts);
    ns' := ns;
    calls, threw := [], false;
    texts, rewrites := [], [];
    ghost var tns: seq<Node> := [];
    var i := 0;
    while i < |scripts| && !threw
      invariant i == |rewrites|
      invariant Progress(ns, ns', scripts, before, rewrites, tns)
      invariant Ran(Rewriter(baseURL, transformSpecifier, parse, serialize), texts, rewrites, calls, threw)
      invariant ReadAtStart(before, scripts, texts)
      invariant forall c | c in calls :: c.url == baseURL
      decreases |scripts| - i
    {
      var js, w;
      ghost var tn;
      assert scripts[i] in scripts;
      ns', js, w, tn := RewriteScript(ns, ns', scripts, i, before, rewrites, tns,
                                      baseURL, transformSpecifier, parse, serialize);
      ReadAtStartSnoc(before, scripts, texts, js);
      RanStep(Rewriter(baseURL, transformSpecifier, parse, serialize), texts, rewrites, calls, threw, js, w);
      texts, rewrites, tns := texts + [js], rewrites + [w], tns + [tn];
      calls, threw := calls + w.calls, w.result.Throw?;
      i := i + 1;
    }
    LoopDone(ns', scripts, Rewriter(baseURL, transformSpecifier, parse, serialize), calls, threw, texts, rewrites, tns);
    KeptOutside(ns, scripts, before, |rewrites|);
  }

  /**
   * Where the first `k` scripts are the only nodes the loop may have
   * touched, every other node of the document keeps its children, value
   * and data from `before`, the contents it had when the loop began.
   */
  twostate lemma KeptOutside(new ns: set<Node>, new scripts: seq<Node>, new before: Contents, k: nat)
    requires old(allocated(ns)) && before == old(ContentsOf(ns))
    requires k <= |scripts| && Untouched(ns, Met(scripts, k), before)
    ensures forall n | n in ns && n !in scripts ::
              n.childNodes == old(n.childNodes) && n.value == old(n.value) && n.data == old(n.data)
  {
    forall n | n in ns && n !in scripts
      ensures n.childNodes == old(n.childNodes) && n.value == old(n.value) && n.data == old(n.data)
    {
      NotMet(scripts, k, n);
    }
  }

  /** Where the script loop stops, its invariant gives `RewroteAll`. */
  lemma LoopDone(ns: set<Node>, scripts: seq<Node>, rewrite: string -> Rewrite,
                 calls: seq<Invocation>, threw: bool, texts: seq<string>, rewrites: seq<Rewrite>, tns: seq<Node>)
    requires Document(ns) && Rewritten(scripts, rewrites, tns)
    requires forall x | x in scripts :: x in ns && x.nodeName == "script"
    requires Ran(rewrite, texts, rewrites, calls, threw)
    requires !threw ==> |rewrites| == |scripts|
    ensures RewroteAll(ns, scripts, rewrite, calls, threw, texts, rewrites)
  {
    RewrittenText(ns, scripts, rewrites, tns);
  }

  /**
   * `transformHTMLAST`: one base URL for the whole document, then each
   * inline module script, in document order, has its text content rewritten
   * by `transformJavaScriptModuleString` and replaced by the output. An
   * exception from the rewriter ends the loop and propagates.
   */
  method TransformHTMLAST(ghost ns: set<Node>, ast: Node, url: string, transformSpecifier: TransformSpecifierFunction,
                          resolveURL: UrlResolver, parse: JsParser, serialize: JsSerializer)
      returns (ghost ns': set<Node>, calls: seq<Invocation>, threw: bool,
               ghost texts: seq<string>, ghost rewrites: seq<Rewrite>)
    requires ast in ns && Document(ns)
    modifies ns`childNodes, ns`value, ns`data
    ensures RewroteScripts(ns, ns', old(GetInlineModuleScripts(ns, ast)), old(GetBaseURL(ns, ast, url, resolveURL)),
                           transformSpecifier, parse, serialize, calls, threw, texts, rewrites)
    ensures old(TextsRead(ns, GetInlineModuleScripts(ns, ast), texts))
    ensures forall n | n in ns && n !in old(GetInlineModuleScripts(ns, ast)) ::
              n.childNodes == old(n.childNodes) && n.value == old(n.value) && n.data == old(n.data)
    ensures forall n | n in ns :: n.attrs == old(n.attrs)
  {
    var baseURL := GetBaseURL(ns, ast, url, resolveURL);
    var scripts := GetInlineModuleScripts(ns, ast);
    ns', calls, threw, texts, rewrites := RewriteScripts(ns, scripts, baseURL, transformSpecifier, parse, serialize);
  }

  /** Each rewritten script not met again later reads back its output. */
  lemma RewrittenText(ns: set<Node>, scripts: seq<Node>, rewrites: seq<Rewrite>, tns: seq<Node>)
    requires Document(ns) && Rewritten(scripts, rewrites, tns)
    requires forall x | x in scripts :: x in ns && x.nodeName == "script"
    ensures forall j | 0 <= j < |rewrites| && rewrites[j].result.Return? && scripts[j] !in scripts[j + 1..|rewrites|] ::
              GetTextContent(ns, scripts[j]) == rewrites[j].result.value
  {
    forall j | 0 <= j < |rewrites| && rewrites[j].result.Return? && scripts[j] !in scripts[j + 1..|rewrites|]
      ensures GetTextContent(ns, scripts[j]) == rewrites[j].result.value
    {
      var s := scripts[j];
      assert s in scripts;
      assert tns[j] in s.childNodes;
      assert s.nodeName[0] == 's' && !StartsWith(s.nodeName, "#");
      TextOnlyChild(ns, s, tns[j]);
    }
  }

  /** A well-formed snapshot is a document the script loop can work on. */
  lemma WellFormedDocument(ns: set<Node>)
    requires WellFormed(Snap(ns)) && Closed(Snap(ns))
    ensures Document(ns)
  {
    var t := Snap(ns);
    forall n | n in ns
      ensures n.parentNode == null || n.parentNode in ns
    {
      assert t.parent[n] == n.parentNode;
    }
    forall n, c | n in ns && c in n.childNodes
      ensures c in ns && c.height < n.height
    {
      assert t.kids[n] == n.childNodes;
    }
    forall n | n in ns && IsParent(n)
      ensures n.height > 0
    {
      assert n in t.kids;
    }
  }

  // ---- Serializing ----

  /** The tree below a node as parse5's serializer reads it. */
  datatype Html = Html(nodeName: string, attrs: seq<Attr>, value: string, data: string, childNodes: seq<Html>)

  /** parse5's `serialize`. */
  type HtmlSerializer = Html -> string

  function ToHtml(ghost ns: set<Node>, n: Node): (h: Html)
    reads ns
    requires n in ns && HeapRanked(ns)
    decreases n.height, 1
  {
    Html(n.nodeName, n.attrs, n.value, n.data, ToHtmlList(ns, n.childNodes, n.height))
  }

  function ToHtmlList(ghost ns: set<Node>, cs: seq<Node>, ghost bound: nat): (hs: seq<Html>)
    reads ns
    requires HeapRanked(ns) && forall c | c in cs :: c in ns && c.height < bound
    decreases bound, 0, |cs|
  {
    if cs == [] then [] else [ToHtml(ns, cs[0])] + ToHtmlList(ns, cs[1..], bound)
  }

  /** `removeFakeRootElements` on a parsed document, which stays well-formed. */
  method UnwrapFakeRoots(ghost ns: set<Node>, root: Node) returns (ghost unwrapped: Tree)
    requires root in ns && WellFormed(Snap(ns)) && Closed(Snap(ns)) && root.parentNode == null
    modifies ns`childNodes, ns`parentNode
    ensures unwrapped == Snap(ns) && unwrapped == RemoveFakeRootElementsT(old(Snap(ns)), root)
    ensures WellFormed(unwrapped) && root in unwrapped.kids && Document(ns)
    ensures DocumentOrder(ns, root) == PreOrder(unwrapped, root)
    ensures forall x | x in PreOrder(unwrapped, root) :: x == root || !IsFakeRoot(x)
    ensures forall n | n in ns :: n.attrs == old(n.attrs)
    ensures Values(ns) == old(Values(ns))
  {
    ghost var t0 := Snap(ns);
    WellFormedDocument(ns);
    RemoveFakeRootElements(ns, root);
    unwrapped := Snap(ns);
    RemoveFakeRootElementsWalk(t0, root);
    WellFormedDocument(ns);
  }

  /**
   * The first half of `transformHTMLString`: the fake roots are unwrapped,
   * then the base URL and the inline module scripts are read off the
   * unwrapped tree, with the attributes as parsed.
   */
  method SelectScripts(ghost ns: set<Node>, root: Node, url: string, resolveURL: UrlResolver)
      returns (ghost unwrapped: Tree, ghost scriptTags: seq<Node>, ghost baseTags: seq<Node>,
               scripts: seq<Node>, baseURL: string)
    requires root in ns && WellFormed(Snap(ns)) && Closed(Snap(ns)) && root.parentNode == null
    modifies ns`childNodes, ns`parentNode
    ensures unwrapped == Snap(ns) && unwrapped == RemoveFakeRootElementsT(old(Snap(ns)), root)
    ensures WellFormed(unwrapped) && root in unwrapped.kids && Document(ns)
    ensures forall x | x in PreOrder(unwrapped, root) :: x == root || !IsFakeRoot(x)
    ensures scriptTags == Keep(PreOrder(unwrapped, root), NameIs("script"))
    ensures baseTags == Keep(PreOrder(unwrapped, root), NameIs("base"))
    ensures (forall x | x in scriptTags :: x in ns) && (forall x | x in baseTags :: x in ns)
    ensures forall n | n in ns :: n.attrs == old(n.attrs)
    ensures Values(ns) == old(Values(ns))
    ensures scripts == GetInlineModuleScripts(ns, root) && scripts == InlineModules(scriptTags)
    ensures baseURL == GetBaseURL(ns, root, url, resolveURL) && baseURL == BaseURLFrom(baseTags, url, resolveURL)
  {
    unwrapped := UnwrapFakeRoots(ns, root);
    scripts := GetInlineModuleScripts(ns, root);
    baseURL := GetBaseURL(ns, root, url, resolveURL);
    scriptTags := Keep(PreOrder(unwrapped, root), NameIs("script"));
    baseTags := Keep(PreOrder(unwrapped, root), NameIs("base"));
    assert scriptTags == GetTags(ns, root, "script") && baseTags == GetTags(ns, root, "base");
    assert scripts == InlineModules(scriptTags);
    assert baseURL == BaseURLFrom(baseTags, url, resolveURL);
  }

  /** `transformHTMLAST` on the unwrapped document; the tags picked before keep their attributes. */
  method RewriteSelection(ghost ns: set<Node>, root: Node, ghost scriptTags: seq<Node>, ghost baseTags: seq<Node>,
                          url: string, transformSpecifier: TransformSpecifierFunction,
                          resolveURL: UrlResolver, parse: JsParser, serialize: JsSerializer)
      returns (ghost ns': set<Node>, calls: seq<Invocation>, threw: bool,
               ghost texts: seq<string>, ghost rewrites: seq<Rewrite>)
    requires root in ns && Document(ns)
    requires (forall x | x in scriptTags :: x in ns) && (forall x | x in baseTags :: x in ns)
    modifies ns`childNodes, ns`value, ns`data
    ensures RewroteScripts(ns, ns', old(GetInlineModuleScripts(ns, root)), old(GetBaseURL(ns, root, url, resolveURL)),
                           transformSpecifier, parse, serialize, calls, threw, texts, rewrites)
    ensures old(TextsRead(ns, GetInlineModuleScripts(ns, root), texts))
    ensures forall n | n in ns :: n.attrs == old(n.attrs)
    ensures InlineModules(scriptTags) == old(InlineModules(scriptTags))
    ensures BaseURLFrom(baseTags, url, resolveURL) == old(BaseURLFrom(baseTags, url, resolveURL))
  {
    ghost var base0 := BaseURLFrom(baseTags, url, resolveURL);
    ns', calls, threw, texts, rewrites := TransformHTMLAST(ns, root, url, transformSpecifier, resolveURL, parse, serialize);
    InlineModulesFramed(scriptTags);
    FirstHrefFramed(baseTags);
    assert BaseURLFrom(baseTags, url, resolveURL) == base0;
  }

  /**
   * `transformHTMLString`, from the document parse5 built: the fake
   * `<html>`, `<head>` and `<body>` elements are unwrapped first, so the
   * base URL and the scripts are those of the unwrapped tree; then the
   * scripts are rewritten and the document is serialized. An exception from
   * the rewriter propagates.
   */
  method TransformHTMLString(ghost ns: set<Node>, root: Node, url: string, transformSpecifier: TransformSpecifierFunction,
                             resolveURL: UrlResolver, parse: JsParser, serialize: JsSerializer,
                             serializeHtml: HtmlSerializer)
      returns (ghost ns': set<Node>, html: Completion<string>, calls: seq<Invocation>, ghost unwrapped: Tree,
               ghost scriptTags: seq<Node>, ghost baseTags: seq<Node>, ghost scripts: seq<Node>, ghost baseURL: string,
               ghost texts: seq<string>, ghost rewrites: seq<Rewrite>)
    requires root in ns && WellFormed(Snap(ns)) && Closed(Snap(ns)) && root.parentNode == null
    modifies ns`childNodes, ns`parentNode, ns`value, ns`data
    ensures unwrapped == RemoveFakeRootElementsT(old(Snap(ns)), root) && WellFormed(unwrapped) && root in unwrapped.kids
    ensures forall x | x in PreOrder(unwrapped, root) :: x == root || !IsFakeRoot(x)
    ensures scriptTags == Keep(PreOrder(unwrapped, root), NameIs("script"))
    ensures baseTags == Keep(PreOrder(unwrapped, root), NameIs("base"))
    ensures (forall x | x in scriptTags :: x in ns) && (forall x | x in baseTags :: x in ns)
    ensures forall n | n in ns :: n.attrs == old(n.attrs)
    ensures scripts == InlineModules(scriptTags) && baseURL == BaseURLFrom(baseTags, url, resolveURL)
    ensures RewroteScripts(ns, ns', scripts, baseURL, transformSpecifier, parse, serialize, calls, html.Throw?, texts, rewrites)
    ensures forall j | 0 <= j < |texts| && FirstBelow(unwrapped, scripts, j) ::
              texts[j] == WalkText(unwrapped, old(Values(ns)), scripts[j])
    ensures html.Return? ==> root in ns' && html.value == serializeHtml(ToHtml(ns', root))
  {
    unwrapped, scriptTags, baseTags, scripts, baseURL := SelectScripts(ns, root, url, resolveURL);
    TextsAtStart(ns, scripts);
    var threw;
    ns', calls, threw, texts, rewrites := RewriteSelection(ns, root, scriptTags, baseTags, url, transformSpecifier, resolveURL, parse, serialize);
    if threw {
      html := Throw;
    } else {
      html := Return(serializeHtml(ToHtml(ns', root)));
    }
  }
}
