/**
 * Node specifier resolution (src/support/resolve-node-specifier.ts). The
 * `resolve` package's `sync`, `new URL` and `posix.relative` are foreign and
 * come in as parameters; `sync` answers None when it throws.
 */
module NodeSpecifier {
  import opened Wrappers
  import opened JsString
  import opened PathUtils
  import opened Log

  /** The `package.json` fields the filter reads (`main`, `module`, `jsnext:main`); an absent field is None. */
  datatype Manifest = Manifest(main: Option<string>, esModule: Option<string>, jsnextMain: Option<string>)

  /** JavaScript truthiness of an optional string: defined and not empty. */
  predicate Truthy(s: Option<string>)
  {
    s.Some? && s.value != ""
  }

  /**
   * `packageFilter`: `main` becomes `module || jsnext:main || main`, the
   * first truthy of the three (the last one as it is when none is).
   */
  function PackageFilter(m: Manifest): (r: Manifest)
    ensures r.esModule == m.esModule && r.jsnextMain == m.jsnextMain
    ensures r.main in {m.esModule, m.jsnextMain, m.main}
    ensures Truthy(m.esModule) ==> r.main == m.esModule
    ensures !Truthy(m.esModule) && Truthy(m.jsnextMain) ==> r.main == m.jsnextMain
    ensures !Truthy(m.esModule) && !Truthy(m.jsnextMain) ==> r.main == m.main
  {
    m.(main := if Truthy(m.esModule) then m.esModule
               else if Truthy(m.jsnextMain) then m.jsnextMain
               else m.main)
  }

  /** The entry point is usable exactly when one of the three fields is; empty strings are skipped. */
  lemma PackageFilterTruthy(m: Manifest)
    ensures Truthy(PackageFilter(m).main) <==> Truthy(m.esModule) || Truthy(m.jsnextMain) || Truthy(m.main)
  {
  }

  /** The three fixture packages: `main` only, `jsnext:main` over `main`, `module` over both, and an empty `module` skipped. */
  lemma PackageFilterFixtures()
    ensures PackageFilter(Manifest(Some("main.js"), None, None)).main == Some("main.js")
    ensures PackageFilter(Manifest(Some("main.js"), None, Some("jsnext.js"))).main == Some("jsnext.js")
    ensures PackageFilter(Manifest(Some("main.js"), Some("module.js"), Some("jsnext.js"))).main == Some("module.js")
    ensures PackageFilter(Manifest(Some("main.js"), Some(""), None)).main == Some("main.js")
  {
  }

  /** The options object given to `resolve.sync` besides the filter. */
  datatype ResolveOptions = ResolveOptions(basedir: string, extensions: seq<string>)

  /** `resolve.sync(specifier, options)` with the package filter; None when it throws. */
  type NodeResolveSync = (string, ResolveOptions, Manifest -> Manifest) -> Option<string>

  /** Resolution is based at the module's folder and probes `.js`, `.json`, `.node` in that order. */
  function Options(modulePath: string): (o: ResolveOptions)
    ensures o.basedir == Dirname(modulePath)
    ensures o.extensions == [".js", ".json", ".node"]
  {
    ResolveOptions(Dirname(modulePath), [".js", ".json", ".node"])
  }

  /** The catch block: `logger.warn && logger.warn(...)`, then the specifier; an undefined logger throws. */
  function Unresolved(logger: Option<Logger>, specifier: string): (r: Logged<string>)
    ensures logger.None? ==> r == Logged(Throw, [])
    ensures logger.Some? ==> r == Logged(Return(specifier), Emit(logger.value, "warn", [specifier]))
  {
    if logger.None? then Logged(Throw, [])
    else Logged(Return(specifier), Emit(logger.value, "warn", [specifier]))
  }

  /**
   * `resolveNodeSpecifier`: URLs pass through; otherwise the resolver's path
   * made relative to the module, with a debug line when it differs from the
   * specifier; on a resolution failure a warning and the specifier. An
   * undefined `logger` makes the property reads themselves throw.
   */
  function ResolveNodeSpecifier(isURL: string -> bool, nodeResolve: NodeResolveSync,
                                relative: (string, string) -> string,
                                logger: Option<Logger>, modulePath: string, specifier: string): (r: Logged<string>)
    ensures isURL(specifier) ==> r == Logged(Return(specifier), [])
    ensures !isURL(specifier) && nodeResolve(specifier, Options(modulePath), PackageFilter).None? ==>
              r == Unresolved(logger, specifier)
    ensures !isURL(specifier) && logger.Some? ==> r.outcome.Return?
    ensures var resolved := nodeResolve(specifier, Options(modulePath), PackageFilter);
            !isURL(specifier) && resolved.Some? && logger.Some? ==>
              var url := RelativePathToURL(relative, modulePath, resolved.value);
              && r.outcome == Return(url)
              && HasLeadingDot(url)
              && r.lines == (if url != specifier then Emit(logger.value, "debug", [specifier, url]) else [])
  {
    if isURL(specifier) then Logged(Return(specifier), [])
    else
      match nodeResolve(specifier, Options(modulePath), PackageFilter)
      case None => Unresolved(logger, specifier)
      case Some(dependencyPath) =>
        var resolvedURL := RelativePathToURL(relative, modulePath, dependencyPath);
        if resolvedURL == specifier then Logged(Return(resolvedURL), [])
        else if logger.None? then Unresolved(logger, specifier)
        else Logged(Return(resolvedURL), Emit(logger.value, "debug", [specifier, resolvedURL]))
  }

  /** A URL specifier never reaches the resolver: any two resolvers give the same answer. */
  lemma URLNotResolved(isURL: string -> bool, resolveA: NodeResolveSync, resolveB: NodeResolveSync,
                       relative: (string, string) -> string,
                       logger: Option<Logger>, modulePath: string, specifier: string)
    requires isURL(specifier)
    ensures ResolveNodeSpecifier(isURL, resolveA, relative, logger, modulePath, specifier)
         == ResolveNodeSpecifier(isURL, resolveB, relative, logger, modulePath, specifier)
  {
  }

  /** With a console-like logger a failed resolution logs exactly one warning naming the specifier. */
  lemma UnresolvedWarnsOnce(isURL: string -> bool, nodeResolve: NodeResolveSync,
                            relative: (string, string) -> string, modulePath: string, specifier: string)
    requires !isURL(specifier) && nodeResolve(specifier, Options(modulePath), PackageFilter).None?
    ensures ResolveNodeSpecifier(isURL, nodeResolve, relative, Some(ConsoleLike()), modulePath, specifier)
         == Logged(Return(specifier), [Line("warn", [specifier])])
  {
    assert "warn" in LogLevels;
  }

  /**
   * Without a logger, every specifier that resolves to a different URL, and
   * every one that does not resolve, ends in a thrown TypeError; only URLs
   * and specifiers already equal to their resolved URL come back.
   */
  lemma NoLoggerThrows(isURL: string -> bool, nodeResolve: NodeResolveSync,
                       relative: (string, string) -> string, modulePath: string, specifier: string)
    requires !isURL(specifier)
    ensures var r := ResolveNodeSpecifier(isURL, nodeResolve, relative, None, modulePath, specifier);
            var resolved := nodeResolve(specifier, Options(modulePath), PackageFilter);
            r.outcome.Throw? <==>
              (resolved.None? || RelativePathToURL(relative, modulePath, resolved.value) != specifier)
  {
  }
}
