/**
 * The specifier callback of the NPM-resolution middleware
 * (src/koa-npm-resolution.ts). `path.resolve`, the `pathname` of
 * `url.parse` and `resolve-from` come in as parameters.
 */
module KoaNpmResolution {
  import opened Wrappers
  import opened JsString
  import opened PathUtils
  import NpmSpecifier

  /** `options.packageRoot || '.'`: an absent or empty root means the current folder. */
  function PackageRootOrDefault(packageRoot: Option<string>): (r: string)
    ensures packageRoot.Some? && packageRoot.value != "" ==> r == packageRoot.value
    ensures packageRoot.None? || packageRoot.value == "" ==> r == "."
  {
    if packageRoot.Some? && packageRoot.value != "" then packageRoot.value else "."
  }

  /**
   * `(options.baseHref || '').replace(/^\//, '').replace(/[^\/]+$/, '')`:
   * one leading `/` goes, then the final file-like segment.
   */
  function NormalizeBaseHref(baseHref: Option<string>): (r: string)
    ensures r == [] || EndsWith(r, "/")
    ensures baseHref.None? ==> r == []
    ensures baseHref.Some? ==> StartsWith(NoLeadingSlashInURL(baseHref.value), r)
    ensures baseHref.Some? ==> forall i | |r| <= i < |NoLeadingSlashInURL(baseHref.value)| ::
                                 NoLeadingSlashInURL(baseHref.value)[i] != '/'
  {
    GetBaseURL(NoLeadingSlashInURL(baseHref.GetOr("")))
  }

  /** `/app/index.html` becomes `app/`; `/` and no base at all both become the empty scope. */
  lemma NormalizeBaseHrefExamples()
    ensures NormalizeBaseHref(Some("/app/index.html")) == "app/"
    ensures NormalizeBaseHref(Some("/app/")) == "app/"
    ensures NormalizeBaseHref(Some("/")) == ""
    ensures NormalizeBaseHref(None) == ""
  {
    assert NoLeadingSlashInURL("/app/index.html") == "app/index.html";
    assert NoLeadingSlashInURL("/app/") == "app/";
    StripFinalSegmentUnique("app/index.html", "app/");
  }

  /** The document path: the URL's pathname (`/` when absent) without one leading `/`. */
  function DocumentPath(pathname: Option<string>): (r: string)
    ensures pathname.None? ==> r == ""
    ensures pathname.Some? ==> r == NoLeadingSlashInURL(pathname.value)
  {
    NoLeadingSlashInURL(if pathname.Some? && pathname.value != "" then pathname.value else "/")
  }

  /** The options of `middleware`; an absent option is None. */
  datatype Options = Options(packageRoot: Option<string>, baseHref: Option<string>)

  /** What the callback closes over: the on-disk root and the normalised base. */
  datatype Scope = Scope(onDiskPackageRoot: string, baseHref: string)

  /** The set-up part of `middleware`: `path.resolve` of the root, and the normalised base. */
  function Middleware(resolveRoot: string -> string, options: Options): (s: Scope)
    ensures s.onDiskPackageRoot == resolveRoot(PackageRootOrDefault(options.packageRoot))
    ensures s.baseHref == NormalizeBaseHref(options.baseHref)
    ensures s.baseHref == [] || EndsWith(s.baseHref, "/")
  {
    Scope(resolveRoot(PackageRootOrDefault(options.packageRoot)), NormalizeBaseHref(options.baseHref))
  }

  /**
   * The callback built by `middleware`: documents outside the base keep their
   * specifiers; inside it, the document path past the base is joined onto the
   * root and handed to the NPM resolver.
   */
  function SpecifierTransform(scope: Scope, resolvePath: (string, string) -> string,
                              parsePathname: string -> Option<string>,
                              resolveFromSilent: (string, string) -> Option<string>,
                              relative: (string, string) -> string,
                              baseURL: string, specifier: string): (r: string)
    ensures var path := DocumentPath(parsePathname(baseURL));
            && (!StartsWith(path, scope.baseHref) ==> r == specifier)
            && (StartsWith(path, scope.baseHref) ==>
                  r == NpmSpecifier.ResolveNpmSpecifier(
                         resolveFromSilent, relative,
                         resolvePath(scope.onDiskPackageRoot, path[|scope.baseHref|..]), specifier))
  {
    var path := DocumentPath(parsePathname(baseURL));
    if !StartsWith(path, scope.baseHref) then specifier
    else
      var debasedPath := path[|scope.baseHref|..];
      var modulePath := resolvePath(scope.onDiskPackageRoot, debasedPath);
      NpmSpecifier.ResolveNpmSpecifier(resolveFromSilent, relative, modulePath, specifier)
  }

  /**
   * A document outside the base is never resolved: whatever `resolve-from`
   * would answer, the specifier comes back as it is.
   */
  lemma OutOfScopeUntouched(resolveRoot: string -> string, options: Options,
                            resolvePath: (string, string) -> string,
                            parsePathname: string -> Option<string>,
                            resolveFromA: (string, string) -> Option<string>,
                            resolveFromB: (string, string) -> Option<string>,
                            relative: (string, string) -> string,
                            baseURL: string, specifier: string)
    requires !StartsWith(DocumentPath(parsePathname(baseURL)), NormalizeBaseHref(options.baseHref))
    ensures var scope := Middleware(resolveRoot, options);
            && SpecifierTransform(scope, resolvePath, parsePathname, resolveFromA, relative, baseURL, specifier) == specifier
            && SpecifierTransform(scope, resolvePath, parsePathname, resolveFromB, relative, baseURL, specifier) == specifier
  {
  }

  /** With no base configured every document is in scope. */
  lemma NoBaseHrefEverythingInScope(resolveRoot: string -> string, packageRoot: Option<string>,
                                    resolvePath: (string, string) -> string,
                                    parsePathname: string -> Option<string>,
                                    resolveFromSilent: (string, string) -> Option<string>,
                                    relative: (string, string) -> string,
                                    baseURL: string, specifier: string)
    ensures var scope := Middleware(resolveRoot, Options(packageRoot, None));
            SpecifierTransform(scope, resolvePath, parsePathname, resolveFromSilent, relative, baseURL, specifier)
            == NpmSpecifier.ResolveNpmSpecifier(resolveFromSilent, relative,
                 resolvePath(resolveRoot(PackageRootOrDefault(packageRoot)), DocumentPath(parsePathname(baseURL))),
                 specifier)
  {
    var path := DocumentPath(parsePathname(baseURL));
    assert path[0..] == path;
  }
}
