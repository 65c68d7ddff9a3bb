# koa-node-resolve: module-specifier rewriting, modelled in Dafny

This project models the core of koa-node-resolve. That is the Koa middleware
that rewrites the module specifiers found in served HTML documents and
JavaScript modules, so that a browser can load bare Node-style specifiers
(`import 'lit-element'`) as relative URLs (`./node_modules/lit-element/lit-element.js`).

The model covers:

- **Path and string algebra**: `src/support/path-utils.ts`,
  `src/support/string-utils.ts` and the `relativePath` helpers of
  `src/support/resolve-npm-specifier.ts`. The JavaScript regular expressions
  are modelled exactly; the shared `\s` class and the prefix/suffix helpers
  live in module `JsString`.
- **The parse5 tree toolkit** (`src/support/parse5-utils.ts`).
  - Nodes are a Dafny `class` whose `childNodes`, `parentNode`, `attrs`,
    `value` and `data` fields the operations update in place.
  - Every mutating operation (`removeNode`, `insertNode`, `insertBefore`,
    `removeNodeSaveChildren`, `removeFakeRootElements`, `setAttr`,
    `setTextContent`, `newTextNode`) is a method.
  - Each is specified by a function on a snapshot `Tree(kids, parent)` of the
    heap. The properties the source promises are lemmas about those functions:
    - the moved node leaves its old parent;
    - a fragment is emptied into the parent;
    - `removeNodeSaveChildren` keeps the pre-order of every other node;
    - after `removeFakeRootElements` no synthesized `html`/`head`/`body` is
      left and the surviving nodes keep their document order.
- **Specifier rewriting in JavaScript** (`src/transform-js-module.ts`,
  `src/transform-javascript-module.ts`).
  - The Babel tree is the closed variant in module `JsAst`.
  - Its string literals are cells of an `array<string>` that the traversal
    overwrites in place.
  - The traversal is proved against `RunSlots`: the callback is called once
    per rewritable literal, in traversal order, with the one URL; the first
    throw stops it.
- **Specifier rewriting in HTML** (`src/transform-html.ts`,
  `src/transform-html-ast.ts`): one base URL per document, from the first
  `<base>` in document order; inline module scripts selected by
  `type="module"` and no `src`; each script's children replaced by one text
  node holding the rewritten code.
- **Resolution** (`src/support/resolve-node-specifier.ts`,
  `src/support/resolve-npm-specifier.ts`, `src/koa-node-resolve.ts`,
  `src/koa-npm-resolution.ts`).
  - The `resolve` and `resolve-from` packages, `new URL`, `url.parse`,
    `url.resolve`, `path.resolve` and `posix.relative` are function-typed
    parameters.
  - What is proved is the decision logic around them: URL passthrough,
    manifest-field precedence, the extension list, the fallback to the
    specifier, and `baseHref` scoping.
- **The middleware** (`src/koa-module-specifier-transform.ts`): the
  substitution counter, HTML-before-JavaScript dispatch, the error boundary
  that keeps the original body, the info and error log lines, and the default
  HTML serializer's fake-root removal.
- **Loggers** (`src/support/logger.ts`): `prefixLogger` and `wrapLoggerMethod`.

Several files import names that their neighbours export under other names. The model binds each to its evident counterpart:

- `noLeadingSlash` to `noLeadingSlashInURL`;
- `relativePathToUrl` to `relativePathToURL`;
- `preserveSurroundingWhitespace` to `preserveOriginalWhitespaceBuffer`;
- `koaModuleSpecifierTransform` and `koa-esm-specifier-transform`'s default
  export to `moduleSpecifierTransform`.

Where the code and its design description disagree, the model follows the code:

- `preserveOriginalWhitespaceBuffer` strips only the target's leading
  whitespace, because its `replace` has no `g` flag. The design promises that
  both runs are stripped.
- The first `<base>` element decides the base URL even when its `href` is
  empty. In that case the request URL is used, and a later `<base>` is never
  looked at.
- `resolveNodeSpecifier` reports a failure through the logger only when it is
  given one. Without a logger it throws (see Findings).
- `prefixLogger` installs `wrap` where `warn` belongs (see Findings).

## Model

| member | source | states |
|---|---|---|
| JsString.LeadingWhitespace | src/support/string-utils.ts:2 | the match of `^\s*`: a prefix of the input made only of whitespace, followed by a non-whitespace character or the end |
| JsString.TrailingWhitespace | src/support/string-utils.ts:3 | the match of `\s*$`: a suffix made only of whitespace, preceded by a non-whitespace character or the start |
| JsString.AllWhitespaceRuns | src/support/string-utils.ts:2-3 | on an all-whitespace string both runs are the whole string |
| JsString.ReplaceBackslashes | src/support/path-utils.ts:33-34 | `replace(/\\/g, '/')`: same length, each backslash becomes `/`, every other character kept |
| JsString.StripFinalSegment | src/support/path-utils.ts:24-25 | `replace(/[^\/]+$/, '')`: a prefix of the input that is empty or ends in `/`, with no `/` in what it drops |
| JsString.LastSegment | src/support/path-utils.ts:55-56 | the match of `[^\/]*$`: a suffix with no `/`, preceded by `/` or the start |
| JsString.LastSegmentIs | src/support/path-utils.ts:55-56 | for a slash-free `q`, the last segment is `q` exactly when the string is `q` or ends in `/q` |
| PathUtils.Dirname | src/support/path-utils.ts:24-25 | a prefix of the path, empty or ending in `/`, that drops only the final run of non-`/` characters; a path ending in `/` is returned unchanged |
| PathUtils.DirnameIdempotent | src/support/path-utils.ts:24-25 | applying `dirname` twice changes nothing more |
| PathUtils.DirnameExamples | src/support/path-utils.ts:18-25 | `'/a/b/c'` gives `'/a/b/'`; `'/a/b/c/'` is unchanged |
| PathUtils.EnsureLeadingDotInURL | src/support/path-utils.ts:27-28 | the result starts with `./` or `../`; an input that already does is unchanged, any other gets exactly `./` in front |
| PathUtils.EnsureLeadingDotInURLIdempotent | src/support/path-utils.ts:27-28 | applying it twice is applying it once |
| PathUtils.EnsureTrailingSlashInPath | src/support/path-utils.ts:30-31 | the result ends in `/` and extends the input; unchanged if the input ends in `/`, otherwise exactly one `/` is added |
| PathUtils.EnsureTrailingSlashInPathIdempotent | src/support/path-utils.ts:30-31 | applying it twice is applying it once |
| PathUtils.ForwardSlashesOnlyPlease | src/support/path-utils.ts:33-34 | same length, no backslash left, every non-backslash character in its place |
| PathUtils.GetBaseURL | src/support/path-utils.ts:36 | a prefix of the href, empty or ending in `/`, and everything after it is free of `/` |
| PathUtils.NoTrailingSlashInPath | src/support/path-utils.ts:38-39 | removes one final `/` if there is one, otherwise returns the path |
| PathUtils.NoLeadingSlashInURL | src/support/path-utils.ts:41-42 | removes one leading `/` if there is one, otherwise returns the href |
| PathUtils.NoLeadingSlashInURLRemovesOne | src/support/path-utils.ts:38-42 | only one slash goes: `'//x'` gives `'/x'`, `'x//'` gives `'x/'` |
| PathUtils.RelativePathToURL | src/support/path-utils.ts:44-47 | the result starts with `./` or `../`, and is `posix.relative` from the folder of `from` to `to` (both with forward slashes), possibly prefixed by `./` |
| PathUtils.IsDirectorySpecifierEnds | src/support/path-utils.ts:55-56 | a specifier names a folder exactly when it is `''`, `.` or `..`, or ends in `/`, `/.` or `/..` |
| PathUtils.ResolvePathPreserveTrailingSlash | src/support/path-utils.ts:49-53 | `path.resolve(from, to)`, with `/` appended exactly when `to` names a folder |
| PathUtils.ResolvePathPreserveTrailingSlashExamples | src/test/path-utils.test.ts:30-41 | `c/` and `''` get the slash, `c` does not |
| StringUtils.PreserveOriginalWhitespaceBuffer | src/support/string-utils.ts:1-3 | the result begins with the original's leading whitespace run and ends with its trailing run |
| StringUtils.OnlyLeadingWhitespaceStripped | src/support/string-utils.ts:3 | between the original's two runs lies exactly the target minus its leading whitespace: nothing else of the target is removed |
| StringUtils.KeepsTargetTrailingWhitespace | src/support/string-utils.ts:3 | for a target with some non-whitespace, the result ends with the target's trailing whitespace followed by the original's |
| StringUtils.NoSurroundingWhitespace | src/support/string-utils.ts:1-3 | with no whitespace around the original and none leading the target, the result is the target |
| StringUtils.AllWhitespaceOriginal | src/support/string-utils.ts:2-3 | an all-whitespace original appears on both sides of the stripped target |
| StringUtils.TrailingNewlineDoubled | src/support/string-utils.ts:3 | `("\n<p>\n", " <q>\n")` gives `"\n<q>\n\n"`: the target's trailing newline survives next to the original's |
| Log.WrapLoggerMethod | src/support/logger.ts:16-26 | calling the wrapper with `args` does what `logger[method](prefix, ...args)` does, and nothing when the logger is missing or lacks the method |
| Log.FillPrefixed | src/support/logger.ts:8-13 | the loop leaves a fresh logger holding exactly the given keys, each wrapping the same-named method of the wrapped logger |
| Log.PrefixLogger | src/support/logger.ts:8-14 | the new logger has exactly the keys `debug`, `info`, `wrap`, `error`, each a prefixing wrapper, and no `warn` |
| Log.PrefixedForwarding | src/support/logger.ts:16-26 | an installed key forwards `[prefix, ...args]` to the same method of the wrapped logger; any other key, or a missing wrapped logger, logs nothing |
| Log.ConsoleLike | src/support/logger.ts:2-6 | a logger whose four levels are host sinks of the same name |
| Log.PrefixedWarnIsLost | src/support/logger.ts:10 | on the console, `warn` on the prefixed logger logs nothing, while the console's own `warn` delivers the line |
| Log.PrefixLoggerIntended | src/support/logger.ts:8-26 | with `warn` in place of `wrap`, every one of the four levels forwards the prefixed arguments |
| Log.IntendedPrefixReachesEverySink | src/support/logger.ts:8-26 | on the console, the corrected logger delivers exactly one prefixed line at every level |
| NodeSpecifier.PackageFilter | src/support/resolve-node-specifier.ts:29-36 | `main` becomes `module`, else `jsnext:main`, else `main`, by truthiness (empty strings skipped); the other fields are kept |
| NodeSpecifier.PackageFilterTruthy | src/support/resolve-node-specifier.ts:33-35 | the chosen entry is truthy exactly when one of the three fields is |
| NodeSpecifier.PackageFilterFixtures | src/test/resolve-node-specifier.test.ts:25-39 | the fixture manifests pick `main.js`, `jsnext.js`, `module.js`, and skip an empty `module` |
| NodeSpecifier.Options | src/support/resolve-node-specifier.ts:26-28 | resolution is based at `dirname(modulePath)` and probes `.js`, `.json`, `.node` in that order |
| NodeSpecifier.Unresolved | src/support/resolve-node-specifier.ts:45-51 | the catch block: with a logger, one `warn` call naming the specifier and the specifier returned; without one, a throw and no line |
| NodeSpecifier.ResolveNodeSpecifier | src/support/resolve-node-specifier.ts:20-52 | a URL comes back unchanged with no line; an unresolved specifier goes to the catch block; with a logger a resolved one becomes a `./`/`../` URL relative to the module, with one `debug` line exactly when it differs from the specifier |
| NodeSpecifier.URLNotResolved | src/support/resolve-node-specifier.ts:22-24 | for a URL the resolver is never consulted: any two resolvers give the same answer |
| NodeSpecifier.UnresolvedWarnsOnce | src/support/resolve-node-specifier.ts:45-51 | with the console as logger, an unresolvable specifier is returned with exactly one warning |
| NodeSpecifier.NoLoggerThrows | src/support/resolve-node-specifier.ts:38-51 | without a logger a non-URL specifier throws exactly when it is unresolved or resolves to a URL other than itself |
| NpmSpecifier.Fslash | src/support/resolve-npm-specifier.ts:37 | same length; each backslash becomes `/` and every other character is kept |
| NpmSpecifier.EnsureLeadingDot | src/support/resolve-npm-specifier.ts:34-35 | starts with `./` or `../`; unchanged if it did, otherwise `./` in front |
| NpmSpecifier.EnsureLeadingDotIdempotent | src/support/resolve-npm-specifier.ts:34-35 | applying it twice is applying it once |
| NpmSpecifier.FromFolder | src/support/resolve-npm-specifier.ts:28-30 | a `from` ending in `/` is its own folder; any other loses its final segment |
| NpmSpecifier.RelativePath | src/support/resolve-npm-specifier.ts:25-32 | starts with `./` or `../`, and is `relative` from the folder of `from` to `to`, both with forward slashes, possibly prefixed by `./` |
| NpmSpecifier.RelativePathAgreesWithRelativePathToURL | src/support/resolve-npm-specifier.ts:25-32 | `relativePath` computes what `relativePathToURL` computes, for every pair of paths |
| NpmSpecifier.ResolveNpmSpecifier | src/support/resolve-npm-specifier.ts:17-23 | a truthy resolution gives `relativePath(modulePath, resolved)`; none, or an empty one, gives the specifier back |
| NpmSpecifier.ResolvedIsRelativeURL | src/support/resolve-npm-specifier.ts:17-23 | for a specifier not already relative, the answer starts with `./` or `../` exactly when resolution succeeded |
| KoaNodeResolve.PackageRootOrDefault | src/koa-node-resolve.ts:22 | an omitted package root is `.`; a given one is used as given |
| KoaNodeResolve.ModulePath | src/koa-node-resolve.ts:25-27 | the module path is the on-disk root joined with the URL's pathname minus one leading `/`; no pathname joins `''` |
| KoaNodeResolve.SpecifierTransform | src/koa-node-resolve.ts:24-30 | the callback is `resolveNodeSpecifier(modulePath, specifier)` with no logger, and logs nothing |
| KoaNodeResolve.ResolvedSpecifierThrows | src/koa-node-resolve.ts:28 | a bare specifier that resolves makes the callback throw |
| KoaNodeResolve.SpecifierTransformWithLogger | src/koa-node-resolve.ts:24-30 | with a logger passed on, the callback always returns: the relative URL when resolved, the specifier for a URL or an unresolved one |
| KoaNpmResolution.PackageRootOrDefault | src/koa-npm-resolution.ts:31 | a missing or empty package root is `.` |
| KoaNpmResolution.NormalizeBaseHref | src/koa-npm-resolution.ts:32-33 | the normalised `baseHref` is `''` or ends in `/`; it is a prefix of the href minus one leading `/`, and what it drops holds no `/`; it is `''` when no `baseHref` is given |
| KoaNpmResolution.NormalizeBaseHrefExamples | src/koa-npm-resolution.ts:32-33 | `/app/index.html` and `/app/` give `app/`; `/` and none give `''` |
| KoaNpmResolution.DocumentPath | src/koa-npm-resolution.ts:35 | the URL's pathname minus one leading `/`, `''` when there is none |
| KoaNpmResolution.Middleware | src/koa-npm-resolution.ts:30-33 | the scope holds the resolved package root and the normalised `baseHref` |
| KoaNpmResolution.SpecifierTransform | src/koa-npm-resolution.ts:34-43 | outside the `baseHref` the specifier is returned as it is; inside, the answer is the NPM resolver's for the root joined with the path minus the `baseHref` |
| KoaNpmResolution.OutOfScopeUntouched | src/koa-npm-resolution.ts:36-38 | outside the `baseHref` no resolution is attempted: any two resolvers give the specifier back |
| KoaNpmResolution.NoBaseHrefEverythingInScope | src/koa-npm-resolution.ts:32-42 | without a `baseHref` every document is resolved from its own path |
| Parse5Tree.Node.Text | src/support/parse5-utils.ts:226-227 | a new `#text` node holding `value`, with the given parent and no children |
| Parse5Tree.KindsOverlapInElementsOnly | src/support/parse5-utils.ts:118-139 | only elements are both child and parent kinds; text and comments are never parents; documents and fragments are never children |
| Parse5Tree.PreOrder | src/support/parse5-utils.ts:148-162 | the walk from a node starts with that node |
| Parse5Mutations.IndexOf | src/support/parse5-utils.ts:188 | `indexOf`: the first position of the node, or -1 exactly when it is absent |
| Parse5Mutations.Get | src/support/parse5-utils.ts:102-104 | `childNodes[index]`: the element at an index in range, otherwise `undefined` |
| Parse5Mutations.SpliceStart | src/support/parse5-utils.ts:105 | where `splice` starts: a negative start counts from the end and is clamped at 0; a start past the end is the end |
| Parse5Mutations.SpliceClamps | src/support/parse5-utils.ts:105 | `splice(start, deleteCount, ...items)` on a child list: the part before the clamped start is kept, the items follow, and then the rest after deleting `deleteCount` entries, none when it is negative and at most to the end |
| Parse5Mutations.SpliceOutFound | src/support/parse5-utils.ts:188-189 | removing at the found index drops exactly that child |
| Parse5Mutations.SpliceOutMissing | src/support/parse5-utils.ts:188-189 | for a node not in the list, `splice(-1, 1)` drops the last child |
| Parse5Mutations.RemoveNodeT | src/support/parse5-utils.ts:184-193 | `removeNode` on a snapshot keeps the set of nodes; its effect is stated by the three lemmas below |
| Parse5Mutations.RemoveNodeListed | src/support/parse5-utils.ts:184-193 | a listed child is cut out of its parent's list exactly once, that list loses just that node, no other list changes, and only the node's `parentNode` is cleared |
| Parse5Mutations.RemoveNodeUnlisted | src/support/parse5-utils.ts:184-193 | a child missing from its parent's list makes the parent lose its last child instead, and its own `parentNode` is cleared |
| Parse5Mutations.RemoveNodeUnattached | src/support/parse5-utils.ts:184-193 | a node without a listed parent only has its `parentNode` cleared |
| Parse5Mutations.RemoveNodeClosed | src/support/parse5-utils.ts:184-193 | `removeNode` keeps every child and parent inside the tree |
| Parse5Mutations.SetParents | src/support/parse5-utils.ts:106-110 | the `forEach` sets the parent of every child-kind node in the list and leaves every other `parentNode` alone |
| Parse5Mutations.InsertNodeT | src/support/parse5-utils.ts:81-116 | `insertNode` on a snapshot keeps the set of nodes; its effect is stated by the lemmas below |
| Parse5Mutations.InsertNodeStages | src/support/parse5-utils.ts:81-116 | `insertNode` is its stages in order: the fragment emptied or the node removed, the splice at the re-read index, the reparenting, then the replaced child's `parentNode` cleared |
| Parse5Mutations.InsertNodeMoves | src/support/parse5-utils.ts:81-116 | a node inserted under a new parent leaves its old parent's list, appears at the index, and points at the new parent; nothing else changes |
| Parse5Mutations.InsertNodeFragment | src/support/parse5-utils.ts:92-110 | a fragment's children are spliced in at the index in order and reparented, and the fragment is left empty |
| Parse5Mutations.InsertNodeReplaces | src/support/parse5-utils.ts:98-115 | with `replace`, the child at the index is swapped for the new node and loses its `parentNode` |
| Parse5Mutations.InsertNodeClosed | src/support/parse5-utils.ts:81-116 | `insertNode` keeps every child and parent inside the tree |
| Parse5Mutations.InsertBeforeT | src/support/parse5-utils.ts:70-79 | `insertBefore` inserts at the reference child's index, and does nothing under a non-parent |
| Parse5Mutations.InsertBeforeMoves | src/support/parse5-utils.ts:70-79 | the moved node leaves its old parent and lands before the reference child |
| Parse5Mutations.InsertBeforeClosed | src/support/parse5-utils.ts:70-79 | `insertBefore` keeps every child and parent inside the tree |
| Parse5SaveChildren.SaveChildrenT | src/support/parse5-utils.ts:195-212 | the intended effect of `removeNodeSaveChildren` keeps the set of nodes |
| Parse5SaveChildren.SaveChildrenShape | src/support/parse5-utils.ts:195-212 | the node's children, in their order, take the node's place in its parent's list; they are reparented; the node is left detached and childless |
| Parse5SaveChildren.SaveChildrenWellFormed | src/support/parse5-utils.ts:195-212 | the result is again a well-formed tree |
| Parse5SaveChildren.SaveChildrenPreOrder | src/support/parse5-utils.ts:195-212 | from every other node, the pre-order walk is the old walk with just the removed node left out |
| Parse5SaveChildren.SaveChildrenKeepsOrphans | src/support/parse5-utils.ts:195-212 | a node that had no parent still has none |
| Parse5SaveChildren.RemoveNodeSaveChildrenT | src/support/parse5-utils.ts:195-212 | the function as written, with both early returns, keeps the set of nodes |
| Parse5SaveChildren.RemoveNodeSaveChildrenAttached | src/support/parse5-utils.ts:195-212 | on an attached child, the function as written has the intended effect |
| Parse5SaveChildren.RemoveNodeSaveChildrenMeaning | src/support/parse5-utils.ts:195-212 | the same, stated for any closed tree |
| Parse5SaveChildren.RemoveNodeSaveChildrenClosed | src/support/parse5-utils.ts:195-212 | it keeps every child and parent inside the tree, whatever node it is given |
| Parse5SaveChildren.EachMoved | src/support/parse5-utils.ts:205-210 | after `j` turns of the loop, the first `j` children sit before the node in the foster parent |
| Parse5SaveChildren.MovedAll | src/support/parse5-utils.ts:205-211 | after the loop, the final `removeNode` gives the intended effect |
| Parse5FakeRoots.FakeRootIsElement | src/support/parse5-utils.ts:174-176 | a fake root (`html`, `head` or `body` in any case, without a source location) is an element and a child kind |
| Parse5FakeRoots.FakeRoots | src/support/parse5-utils.ts:173-180 | the collected nodes are exactly the fake roots of the walk |
| Parse5FakeRoots.FakeRootsAppend | src/support/parse5-utils.ts:177 | `unshift` collects in reverse: the roots of a later part of the walk come first |
| Parse5FakeRoots.RemoveEachSaveChildren | src/support/parse5-utils.ts:181 | the `forEach` keeps the tree closed and keeps its set of nodes |
| Parse5FakeRoots.RemoveFakeRootElementsT | src/support/parse5-utils.ts:171-182 | the whole operation keeps the tree closed and keeps its set of nodes |
| Parse5FakeRoots.RemoveFakeRootElementsWalk | src/support/parse5-utils.ts:171-182 | the tree stays well-formed; the walk from the root is the old walk minus the fake roots below the root; no fake root is left below it |
| Parse5FakeRoots.FakeRootsBelow | src/support/parse5-utils.ts:173-180 | exactly the fake roots of the walk other than the root |
| Parse5Utils.DepthFirst | src/support/parse5-utils.ts:148-162 | the node, then each child's walk left to right: the pre-order of the snapshot |
| Parse5Utils.DepthFirstList | src/support/parse5-utils.ts:158-160 | the walks of a list of children, concatenated |
| Parse5Utils.Filter | src/support/parse5-utils.ts:24-34 | `matches` extended by the items that satisfy the predicate, in order |
| Parse5Utils.NodeWalkAll | src/support/parse5-utils.ts:164-169 | `matches` extended by the matching nodes in pre-order |
| Parse5Utils.FindAttr | src/support/parse5-utils.ts:38 | `attrs.find`: the first attribute with the name, or none when no attribute has it |
| Parse5Utils.SetAttr | src/support/parse5-utils.ts:57-68 | on an element, the first attribute of that name is updated in place or a new one appended, and `getAttr` then returns the value; other names read as before; a non-element is unchanged |
| Parse5Utils.NewTextNode | src/support/parse5-utils.ts:224-230 | a fresh text node holding the value becomes the parent's only child and points at it; the snapshot changes by exactly that |
| Parse5Utils.SetTextContent | src/support/parse5-utils.ts:214-222 | a comment's `data` or a text node's `value` is set; a parent gets one fresh text child; in each case `getTextContent` then returns the value; any other node and all attributes are untouched |
| Parse5Utils.TextOnlyChild | src/support/parse5-utils.ts:46-55 | a parent whose only child is a childless text node has that node's value as its text content |
| Parse5Utils.RemoveNode | src/support/parse5-utils.ts:184-193 | the heap after the call is `RemoveNodeT` of the heap before |
| Parse5Utils.InsertNode | src/support/parse5-utils.ts:81-116 | the heap after the call is `InsertNodeT` of the heap before |
| Parse5Utils.SpliceIn | src/support/parse5-utils.ts:102-115 | the parent's list is spliced with the new nodes, they are reparented, and a replaced child's `parentNode` is cleared |
| Parse5Utils.Reparent | src/support/parse5-utils.ts:106-110 | the `forEach` sets the parents as `SetParents` says and changes no child list |
| Parse5Utils.InsertBefore | src/support/parse5-utils.ts:70-79 | the heap after the call is `InsertBeforeT` of the heap before |
| Parse5Utils.RemoveNodeSaveChildren | src/support/parse5-utils.ts:195-212 | the heap after the call is the function as written of the heap before, still closed, and on an attached child the intended effect |
| Parse5Utils.InsertEachBeforeNode | src/support/parse5-utils.ts:205-210 | the loop moves each saved child before the node, in order |
| Parse5Utils.RemoveFakeRootElements | src/support/parse5-utils.ts:171-182 | the heap after the call is `RemoveFakeRootElementsT` of the heap before, still closed |
| Parse5Utils.CollectFakeRoots | src/support/parse5-utils.ts:172-180 | the `unshift` loop collects `FakeRoots` of the walk |
| JsAst.Slot | src/transform-js-module.ts:21-53 | the literal a visitor rewrites at a node, when it has one, is the node's only literal |
| JsAst.SlotsOfWalk | src/transform-js-module.ts:35-54 | the rewritten literals, read off Babel's pre-order walk, are the ones the recursive traversal visits |
| JsAst.SlotIsAll | src/transform-js-module.ts:24-25 | a node with a rewritable literal has no other literal below it |
| JsAst.SlotsAreLiterals | src/transform-js-module.ts:19-55 | only string literals are ever rewritten |
| JsAst.SlotsIncreasing | src/transform-js-module.ts:35-54 | cells numbered in pre-order are visited in increasing order, so no literal is visited twice |
| JsAst.ShapeLits | src/transform-js-module.ts:19-55 | numbering the literals hands out consecutive cell numbers in pre-order |
| JsAst.ShapeFill | src/transform-js-module.ts:19-55 | reading the numbered tree back from the original cells gives the parsed tree |
| JsAst.ShapedProgram | src/transform-js-module.ts:19-55 | the same for a whole program, whose rewritable cells are increasing and in range |
| TransformJsModule.Visit | src/transform-js-module.ts:26-31 | a visit keeps the number of cells |
| TransformJsModule.RunFrom | src/transform-js-module.ts:35-54 | a traversal keeps the number of cells |
| TransformJsModule.RunAppend | src/transform-js-module.ts:35-54 | traversing two parts in sequence is traversing their concatenation |
| TransformJsModule.ThrowStops | src/transform-js-module.ts:27 | after a throw, nothing more is called or written |
| TransformJsModule.RunCalls | src/transform-js-module.ts:26-27 | the calls are `(url, literal)` for the first literals in order; all but the last returned; the run threw exactly when the last call did; without a throw every literal was visited |
| TransformJsModule.RunCells | src/transform-js-module.ts:28-31 | each visited cell holds the callback's answer (or its old value for `undefined`); every other cell is unchanged |
| TransformJsModule.IdleCallbackChangesNothing | src/transform-js-module.ts:28-30 | a callback answering `undefined` or the specifier itself changes no cell and never throws |
| TransformJsModule.ProgramRun | src/transform-js-module.ts:19-55 | one cell per literal of the program |
| TransformJsModule.ProgramRewrite | src/transform-js-module.ts:19-55 | the rewritten program is the parsed one with exactly the visited literals replaced; calls, throw and completion as in `RunCalls` |
| TransformJsModule.ProgramCalls | src/transform-js-module.ts:27 | every call gets the one URL and a rewritable literal of the program, in order |
| TransformJsModule.ProgramCells | src/transform-js-module.ts:28-31 | nothing but the rewritable literals that were reached changes |
| TransformJsModule.IdleCallbackKeepsProgram | src/transform-js-module.ts:28-30 | with such an idle callback the program comes back identical and nothing throws |
| TransformJsModule.TransformJSModule | src/transform-js-module.ts:19-55 | the array after the traversal, and the calls made, are `RunSlots` of the old array over the program's rewritable cells |
| TransformJsModule.Traverse | src/transform-js-module.ts:35-54 | the same for one subtree: its own literal, then its children |
| TransformJsModule.Enter | src/transform-js-module.ts:21-53 | the `enter` visitors: at most the node's own rewritable literal is handled |
| TransformJsModule.TraverseBelow | src/transform-js-module.ts:35-54 | the children of a node, in Babel's order |
| TransformJsModule.TraverseCall | src/transform-js-module.ts:39-53 | a call's callee, then its arguments |
| TransformJsModule.TraverseList | src/transform-js-module.ts:35-54 | a list of statements or children, left to right |
| TransformJavaScriptModule.TransformJavaScriptModuleAST | src/transform-javascript-module.ts:21-52 | the same traversal with every answer written back: `RunSlots` with the callback never answering `undefined` |
| TransformJavaScriptModule.WrittenBack | src/transform-javascript-module.ts:25-49 | each reached literal whose call returned holds exactly the callback's answer; other cells are untouched; calls are `(url, literal)` in order; without a throw all are reached |
| TransformJavaScriptModule.ModuleStringCalls | src/transform-javascript-module.ts:57-60 | a parse error throws before any call; otherwise every call gets `url` |
| TransformJavaScriptModule.ModuleStringKeepsWhitespace | src/transform-javascript-module.ts:58-61 | the output starts with the source's leading whitespace run and ends with its trailing run |
| TransformJavaScriptModule.IdentityModuleString | src/transform-javascript-module.ts:54-62 | with an identity callback the output is the parsed program regenerated between the source's whitespace runs |
| TransformJavaScriptModule.TransformJavaScriptModuleString | src/transform-javascript-module.ts:54-62 | the method (parse, rewrite the cells in place, serialize, re-wrap) computes `ModuleString` |
| TransformHtml.DocumentClosed | src/transform-html.ts:21-33 | a document's snapshot is closed |
| TransformHtml.DocumentOrder | src/transform-html.ts:66-67 | the walk of a document stays inside it |
| TransformHtml.GetTags | src/transform-html.ts:66-67 | the elements of a name are exactly those in the document's walk, in walk order |
| TransformHtml.GetBaseTag | src/transform-html.ts:57-58 | none exactly when the walk has no `<base>`, otherwise the first `<base>` of the walk |
| TransformHtml.BaseTagIsFirst | src/transform-html.ts:57-58 | whichever `<base>` comes first in the walk is the one returned |
| TransformHtml.GetBaseURL | src/transform-html.ts:45-55 | the request URL when there is no `<base>` or the first one's `href` is empty, otherwise that `href` resolved against the request URL |
| TransformHtml.InlineModules | src/transform-html.ts:60-64 | the filter keeps exactly the scripts with `type` exactly `module` and an absent or empty `src` |
| TransformHtml.GetInlineModuleScripts | src/transform-html.ts:60-64 | the selected scripts are exactly the inline module scripts of the document's walk |
| TransformHtml.SetScriptText | src/transform-html.ts:30 | a script's children become one fresh text node holding the value, and the document stays well-formed |
| TransformHtml.TextChildWellFormed | src/support/parse5-utils.ts:224-230 | giving a parent one fresh text child keeps the tree well-formed |
| TransformHtml.ReplaceScriptText | src/transform-html.ts:27-30 | writing a returned output into the next script keeps every earlier script's text as written |
| TransformHtml.Each | src/transform-html.ts:26-31 | one rewrite per text |
| TransformHtml.RanStep | src/transform-html.ts:26-31 | one more script rewritten after a run that has not thrown extends the run's calls, and it throws exactly when that rewrite did |
| TransformHtml.RewriteStep | src/transform-html.ts:26-31 | one turn of the loop writes the output into the next script as its one fresh text node and keeps the loop's invariant over the document |
| TransformHtml.RewriteScript | src/transform-html.ts:27-30 | the script's current text goes through `transformJavaScriptModuleString` with the base URL; where no earlier script lies above it, that text is the one it held when the loop began; every call gets that URL |
| TransformHtml.RewriteScripts | src/transform-html.ts:26-31 | the `forEach`: the scripts are rewritten in order until one throws; each is handed its text in the document as given (where no earlier script lies above it); each one rewritten and not met again reads back the output; every other node keeps its children and text |
| TransformHtml.TransformHTMLAST | src/transform-html.ts:21-33 | one base URL for the document; every inline module script in order is handed its text in the document as given (where no earlier script lies above it), rewritten with that URL, and reads back the output when that returned; the first throw propagates; no attribute, and no other node's children or text, change |
| TransformHtml.RewrittenText | src/transform-html.ts:27-30 | each script rewritten and not met again reads back as the rewriter's output |
| TransformHtml.UnwrapFakeRoots | src/transform-html.ts:40 | after `removeFakeRootElements` the document is well-formed, its walk is the unwrapped pre-order, and no fake root is left |
| TransformHtml.SelectScripts | src/transform-html.ts:39-41 | the scripts and base URL are chosen on the unwrapped document |
| TransformHtml.RewriteSelection | src/transform-html.ts:41 | rewriting changes no attribute, so the selection made before it still holds |
| TransformHtml.TransformHTMLString | src/transform-html.ts:35-43 | unwrap the fake roots; choose the scripts and base URL on the unwrapped document; hand each script its text there; rewrite; the result is the serializer applied to the rewritten document, in which each rewritten script reads back its output |
| TransformHtmlAst.StrategyStep | src/transform-html-ast.ts:28-33 | one script's current text (the one it held when the loop began, where no earlier script lies above it) and the one AST transform go to the strategy, and its output becomes the script's text |
| TransformHtmlAst.StrategyLoop | src/transform-html-ast.ts:27-33 | the strategy is called once per script in order, with the same AST transform, until one throws; each script is handed the text it had when the loop began (where no earlier script lies above it); each one rewritten and not met again reads back the output; nodes not met are untouched |
| TransformHtmlAst.RunStrategy | src/transform-html-ast.ts:27-33 | the loop run on the document as given: each script handed its text there (where no earlier script lies above it), each one rewritten and not met again reads back the output, other nodes keep their children and text, and the nodes added are fresh |
| TransformHtmlAst.TransformHTMLAST | src/transform-html-ast.ts:21-35 | one base URL for the document; each inline module script, in order, goes to the strategy with its text in the document as given and the AST transform bound to that URL; each one rewritten and not met again reads back the output; other nodes keep their children and text |
| TransformHtmlAst.StrategyOutputs | src/transform-html-ast.ts:26-33 | the `j`-th script met went to the strategy as `texts[j]` with the one transform; all calls but the last returned; the loop threw exactly when the last did; each script rewritten and not met again reads back the output |
| KoaModuleSpecifierTransform.DisabledLoggingIsSilent | src/koa-module-specifier-transform.ts:96-97 | with `logger: false` nothing is ever logged, at any level |
| KoaModuleSpecifierTransform.DefaultLevelIsWarn | src/koa-module-specifier-transform.ts:95-98 | an unset level is `warn`; a given one is used; the default logger is the console at that level |
| KoaModuleSpecifierTransform.Substitutions | src/koa-module-specifier-transform.ts:129-138 | the count never exceeds the number of calls |
| KoaModuleSpecifierTransform.SubstitutionsPositive | src/koa-module-specifier-transform.ts:134-136 | the count is positive exactly when some call got a truthy answer other than the specifier |
| KoaModuleSpecifierTransform.IdleCallbackCountsNothing | src/koa-module-specifier-transform.ts:134 | a callback answering only `undefined`, `''` or the specifier is never counted |
| KoaModuleSpecifierTransform.SubstitutionsAppend | src/koa-module-specifier-transform.ts:129-138 | the count over two runs of calls is the sum of their counts |
| KoaModuleSpecifierTransform.CountedSpecifierTransform | src/koa-module-specifier-transform.ts:130-138 | the callback's answer is returned unchanged, and the counter goes up by one exactly for a truthy answer other than the specifier |
| KoaModuleSpecifierTransform.CountSubstitutions | src/koa-module-specifier-transform.ts:129-138 | going through the counted wrapper once per call, from 0, leaves the counter at the count of those calls |
| KoaModuleSpecifierTransform.SourceStrategyCalls | src/koa-module-specifier-transform.ts:125-127 | a parse error throws before any call; otherwise every call gets the transform's URL |
| KoaModuleSpecifierTransform.IdleSourceStrategy | src/koa-module-specifier-transform.ts:125-127 | with an idle callback the strategy regenerates the parsed program as it was |
| KoaModuleSpecifierTransform.StrategyIsModuleString | src/koa-module-specifier-transform.ts:125-127 | inside a document the strategy makes the same calls as `transformJavaScriptModuleString`, throws alike, and differs only by the re-wrapping whitespace |
| KoaModuleSpecifierTransform.RunSourceStrategy | src/koa-module-specifier-transform.ts:125-127 | the method (parse, rewrite the cells in place, serialize) computes the strategy |
| KoaModuleSpecifierTransform.DefaultedRewritesAlike | src/koa-module-specifier-transform.ts:146-151 | inside a document a specifier becomes what it becomes in a JavaScript module, and a call throws exactly when the callback does |
| KoaModuleSpecifierTransform.StrategyCallsURL | src/koa-module-specifier-transform.ts:146-151 | every call made over a document's scripts gets the transform's URL |
| KoaModuleSpecifierTransform.TransformDocument | src/koa-module-specifier-transform.ts:146-151 | the document's scripts go through the JavaScript strategy bound to the document's base URL, each handed its text in the parsed document; every call gets that URL; each rewritten script reads back the output; the document stays well-formed |
| KoaModuleSpecifierTransform.DefaultHtmlSerializer | src/koa-module-specifier-transform.ts:55-58 | the fake roots are unwrapped in place, none is left, then the unwrapped document is serialized |
| KoaModuleSpecifierTransform.SerializeDocument | src/koa-module-specifier-transform.ts:100 | a user serializer leaves the document as it is; the default one unwraps the fake roots first |
| KoaModuleSpecifierTransform.HtmlSource | src/koa-module-specifier-transform.ts:121-123 | the output is the chosen serializer applied to the transformed document: the user's one as it stands, or the default one after unwrapping; in either, each rewritten script holds the strategy's output for the text it had in the parsed document; a throw anywhere propagates |
| KoaModuleSpecifierTransform.OneLinePerCall | src/support/logger.ts:16-26 | a call of a log function delivers at most one line, and exactly one for a host sink |
| KoaModuleSpecifierTransform.ErrorLine | src/koa-module-specifier-transform.ts:165-170 | the error boundary logs at most one line, and exactly one on the console |
| KoaModuleSpecifierTransform.TransformBody | src/koa-module-specifier-transform.ts:140-159 | HTML is tried before JavaScript: for HTML, a parse error throws with no call, otherwise the output is the serialized rewritten document as `HtmlSource` states it; for JavaScript, the strategy's result on the body |
| KoaModuleSpecifierTransform.Respond | src/koa-module-specifier-transform.ts:104-171 | neither HTML nor JavaScript, or an empty body: nothing changes and nothing is logged; a throw keeps the body and logs the error line; otherwise the body is the output in the original's whitespace, with the info line exactly when the count is positive; for HTML the output is the serialized rewritten document as `HtmlSource` states it |

## Left out

- Babel's parser, traversal engine and generator, and parse5's parser and
  serializer, are foreign libraries. They are function-typed parameters.
  The HTML parser's output comes into `Respond` as the parsed document (or
  a parse error). Quoting and formatting by the serializers are not modelled.
- The default Babel parser options and the generator options
  (src/koa-module-specifier-transform.ts:60-90) are not modelled, for the
  same reason.
- `leveledLogger` is not defined in the logger module. It is a parameter of
  the middleware's logger.
- The exact text of log messages and the error object are not modelled. A
  line is its level and the values interpolated into it.
- Only string bodies are modelled: `getBodyAsString`, `isStream` and Buffer
  bodies are I/O. So is `await next()`.
- Whether the response is HTML or JavaScript (`ctx.response.is`) is an input.
- The rest of the Koa middleware plumbing is left out.
- src/koa-esm-specifier-transform.ts is not part of this model. It is an
  older copy of the same wiring.
- `isURL` (`new URL`) is a parameter, and so are:
  - `resolve.sync`;
  - `resolveFrom.silent`;
  - `url.parse(...).pathname`;
  - `url.resolve`;
  - `path.resolve`;
  - `posix.relative`.
- Windows separators are not modelled. `process.platform` is taken to be
  posix, so `dirname` strips `[^\/]+$` and `pathSeparator` is `/`.
- NodeSpecifier.PackageFilter: `Object.assign` updates the manifest object
  in place and returns it. The model returns the updated manifest as a
  value, so aliasing of `packageJson` is not captured.
- KoaModuleSpecifierTransform.Defaulted: inside a document,
  `transformJavaScriptModuleAST` writes back an `undefined` answer
  unguarded. The model reads that answer as the specifier itself, because
  what the generator prints for an `undefined` literal is outside the model.
- A custom HTML serializer that throws is not modelled. The user's
  serializer is a total function.
- KoaModuleSpecifierTransform.Respond:
  - The substitution count is replayed over the recorded calls through the
    counted wrapper. It is not kept by a closure shared with the traversal,
    but the callback is a function of its arguments, so the two agree.
  - The `logger` argument handed to the callback is not modelled.
- TransformHtml.TransformHTMLAST and TransformHtmlAst.TransformHTMLAST:
  - A script's final text is stated only when the script does not recur
    later in the selected list. The list comes from a pre-order walk, and
    that walk's freedom from repeats is not proved.
  - The stale `parentNode` left on the script's replaced children is not
    stated.
  - The text a script is handed is tied to the document only where no
    earlier script in the list lies above it. Scripts hold only text, so
    none lies above another in a parsed document, but that is not proved.
- TransformHtml.RewriteScripts, TransformHtml.TransformHTMLString,
  TransformHtmlAst.StrategyLoop, TransformHtmlAst.RunStrategy and
  KoaModuleSpecifierTransform.HtmlSource carry the same two caveats: a
  script's final text only where it does not recur later in the list, its
  starting text only where no earlier script lies above it.
- TransformHtmlAst.TransformHTMLAST: that no attribute changes is not
  restated. Attributes are outside its `modifies` frame, which keeps them.
- TransformHtmlAst.StrategyOutputs: it speaks of the texts the strategy was
  handed. That they are the scripts' texts in the document as given is
  stated by TransformHtmlAst.TransformHTMLAST, not here.
- KoaModuleSpecifierTransform.HtmlSource,
  KoaModuleSpecifierTransform.Strategy and
  KoaModuleSpecifierTransform.RunSourceStrategy: as written,
  `htmlSourceStrategy` and `jsSourceStrategy` hand the serializer what the
  transform returns (src/koa-module-specifier-transform.ts:121-127).
  `transformJSModule` returns nothing (src/transform-js-module.ts:19-55),
  and `transformHTMLAST` ends in `return;` (src/transform-html-ast.ts:34).
  So the serializers would be given `undefined`. The model serializes the
  tree the transform changed in place, which is evidently what is meant.
  A serializer given `undefined` is not modelled.
- transform-html-ast.ts imports `transformJavaScriptModuleAST` from a file
  that is not part of this model. Its behaviour is taken from
  src/transform-javascript-module.ts.
- `transformHTML`, which the middleware imports, is bound to
  `transformHTMLAST` of src/transform-html-ast.ts.
- Parse5Mutations.RemoveNodeT, Parse5Mutations.InsertNodeT and
  Parse5SaveChildren.SaveChildrenT: their own contracts state only that the
  node set is kept. What they do is stated by the lemmas listed beside them
  in the table.
- The `getChildNodes` parameter of `depthFirst` and `nodeWalkAll` is fixed
  to its default, `node.childNodes`.
- `getAttr` (Parse5Utils.GetAttr) and `getTextContent`
  (Parse5Utils.GetTextContent) are specification functions without
  contracts of their own. Their behaviour is stated through SetAttr,
  SetTextContent, TextOnlyChild and the script-rewriting contracts.
- Each node carries a ghost `height`, above the heights of its children. It
  bounds the recursion of the tree walks and rules out cycles. The source
  has no such field.
- The `sourceCodeLocation` of a node is reduced to the flag
  `hasSourceLocation`.

## Findings

| source | as written | input that shows it | evidently intended | confidence | as-written member | corrected member |
|---|---|---|---|---|---|---|
| src/support/logger.ts:10 | `prefixLogger` installs the keys `debug`, `info`, `wrap`, `error` | `prefixLogger('p', console).warn('x')` logs nothing; the logger has no `warn` | install `warn`, so warnings are prefixed and forwarded like the other levels | high; not executed | Log.PrefixedWarnIsLost | Log.PrefixLoggerIntended |
| src/koa-node-resolve.ts:28 | `resolveNodeSpecifier(modulePath, specifier)` is called without a logger | a bare specifier such as `'x'` that resolves to `'./node_modules/x/index.js'`: `logger.debug` on `undefined` throws in the `try`, then `logger.warn` throws in the `catch` | pass a logger, so the callback returns the resolved URL, or the specifier after one warning | high; not executed | KoaNodeResolve.ResolvedSpecifierThrows | KoaNodeResolve.SpecifierTransformWithLogger |
