/**
 * The specifier callback of the Node-resolution middleware
 * (src/koa-node-resolve.ts).
 */
module KoaNodeResolve {
  import opened Wrappers
  import opened PathUtils
  import opened Log
  import opened NodeSpecifier

  /** `packageRoot = '.'`: a default parameter replaces only an absent root, not an empty one. */
  function PackageRootOrDefault(packageRoot: Option<string>): (r: string)
    ensures packageRoot.None? ==> r == "."
    ensures packageRoot.Some? ==> r == packageRoot.value
  {
    packageRoot.GetOr(".")
  }

  /** The module path a document URL stands for: its pathname (`/` when absent) without one leading `/`, joined onto the root. */
  function ModulePath(resolvePath: (string, string) -> string, parsePathname: string -> Option<string>,
                      onDiskPackageRoot: string, baseURL: string): (r: string)
    ensures var pathname := parsePathname(baseURL);
            pathname.None? || pathname.value == "" ==> r == resolvePath(onDiskPackageRoot, "")
    ensures var pathname := parsePathname(baseURL);
            pathname.Some? && pathname.value != "" ==>
              r == resolvePath(onDiskPackageRoot, NoLeadingSlashInURL(pathname.value))
  {
    var pathname := if parsePathname(baseURL).Some? && parsePathname(baseURL).value != ""
                    then parsePathname(baseURL).value else "/";
    resolvePath(onDiskPackageRoot, NoLeadingSlashInURL(pathname))
  }

  /**
   * The callback as written: `resolveNodeSpecifier` is called with two
   * arguments, so its `logger` is undefined.
   */
  function SpecifierTransform(resolvePath: (string, string) -> string, parsePathname: string -> Option<string>,
                              isURL: string -> bool, nodeResolve: NodeResolveSync,
                              relative: (string, string) -> string,
                              onDiskPackageRoot: string, baseURL: string, specifier: string): (r: Logged<string>)
    ensures r == ResolveNodeSpecifier(isURL, nodeResolve, relative, None,
                                      ModulePath(resolvePath, parsePathname, onDiskPackageRoot, baseURL), specifier)
    ensures r.lines == []
  {
    ResolveNodeSpecifier(isURL, nodeResolve, relative, None,
                         ModulePath(resolvePath, parsePathname, onDiskPackageRoot, baseURL), specifier)
  }

  /** A bare specifier that resolves to another file throws instead of being rewritten. */
  lemma ResolvedSpecifierThrows(resolvePath: (string, string) -> string, parsePathname: string -> Option<string>,
                                isURL: string -> bool, nodeResolve: NodeResolveSync,
                                relative: (string, string) -> string,
                                onDiskPackageRoot: string, baseURL: string, specifier: string)
    requires !isURL(specifier) && !HasLeadingDot(specifier)
    requires nodeResolve(specifier, Options(ModulePath(resolvePath, parsePathname, onDiskPackageRoot, baseURL)), PackageFilter).Some?
    ensures SpecifierTransform(resolvePath, parsePathname, isURL, nodeResolve, relative,
                               onDiskPackageRoot, baseURL, specifier).outcome.Throw?
  {
    var modulePath := ModulePath(resolvePath, parsePathname, onDiskPackageRoot, baseURL);
    var resolved := nodeResolve(specifier, Options(modulePath), PackageFilter);
    NoLoggerThrows(isURL, nodeResolve, relative, modulePath, specifier);
    assert HasLeadingDot(RelativePathToURL(relative, modulePath, resolved.value));
  }

  /**
   * The callback with a logger handed on, as the tests expect: it never
   * throws and answers exactly what `resolveNodeSpecifier` answers.
   */
  function SpecifierTransformWithLogger(resolvePath: (string, string) -> string, parsePathname: string -> Option<string>,
                                        isURL: string -> bool, nodeResolve: NodeResolveSync,
                                        relative: (string, string) -> string, logger: Logger,
                                        onDiskPackageRoot: string, baseURL: string, specifier: string): (r: Logged<string>)
    ensures r.outcome.Return?
    ensures var modulePath := ModulePath(resolvePath, parsePathname, onDiskPackageRoot, baseURL);
            var resolved := nodeResolve(specifier, Options(modulePath), PackageFilter);
            !isURL(specifier) && resolved.Some? ==> r.outcome.value == RelativePathToURL(relative, modulePath, resolved.value)
    ensures var modulePath := ModulePath(resolvePath, parsePathname, onDiskPackageRoot, baseURL);
            isURL(specifier) || nodeResolve(specifier, Options(modulePath), PackageFilter).None? ==> r.outcome.value == specifier
  {
    ResolveNodeSpecifier(isURL, nodeResolve, relative, Some(logger),
                         ModulePath(resolvePath, parsePathname, onDiskPackageRoot, baseURL), specifier)
  }
}
