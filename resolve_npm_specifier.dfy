/**
 * NPM specifier resolution (src/support/resolve-npm-specifier.ts). The
 * `resolve-from` package (`resolveFrom.silent`) and `path.relative` are
 * foreign and come in as parameters; `silent` never throws and answers
 * `undefined` (None) when nothing is found.
 */
module NpmSpecifier {
  import opened Wrappers
  import opened JsString
  import opened PathUtils

  /** `fslash`: the same rewrite as `forwardSlashesOnlyPlease`. */
  function Fslash(path: string): (r: string)
    ensures |r| == |path| && '\\' !in r
    ensures forall i | 0 <= i < |path| && path[i] != '\\' :: r[i] == path[i]
    ensures forall i | 0 <= i < |path| && path[i] == '\\' :: r[i] == '/'
  {
    ForwardSlashesOnlyPlease(path)
  }

  /** `ensureLeadingDot`: the same rule as `ensureLeadingDotInURL`. */
  function EnsureLeadingDot(path: string): (r: string)
    ensures HasLeadingDot(r)
    ensures HasLeadingDot(path) ==> r == path
    ensures !HasLeadingDot(path) ==> r == "./" + path
  {
    EnsureLeadingDotInURL(path)
  }

  lemma EnsureLeadingDotIdempotent(path: string)
    ensures EnsureLeadingDot(EnsureLeadingDot(path)) == EnsureLeadingDot(path)
  {
  }

  /**
   * The folder `relativePath` measures from: `from` itself when it ends in
   * `/`, otherwise `from` without its final segment.
   */
  function FromFolder(from: string): (r: string)
    ensures EndsWith(from, "/") ==> r == from
    ensures !EndsWith(from, "/") ==> r == StripFinalSegment(from)
  {
    if !EndsWith(from, "/") then StripFinalSegment(from) else from
  }

  /** `relativePath`: both paths get forward slashes, `from` is read as a file unless it ends in `/`. */
  function RelativePath(relative: (string, string) -> string, from: string, to: string): (r: string)
    ensures HasLeadingDot(r)
    ensures var rel := relative(FromFolder(Fslash(from)), Fslash(to));
            r == rel || r == "./" + rel
  {
    EnsureLeadingDot(relative(FromFolder(Fslash(from)), Fslash(to)))
  }

  /**
   * The explicit trailing-slash test changes nothing: stripping the final
   * segment of a path ending in `/` leaves it as it is, so `relativePath`
   * and `relativePathToURL` agree on every input.
   */
  lemma RelativePathAgreesWithRelativePathToURL(relative: (string, string) -> string, from: string, to: string)
    ensures RelativePath(relative, from, to) == RelativePathToURL(relative, from, to)
  {
    var f := Fslash(from);
    assert FromFolder(f) == GetBaseURL(f);
  }

  /**
   * The default export: the resolver's answer, made relative to the module,
   * when it is truthy; the specifier itself otherwise.
   */
  function ResolveNpmSpecifier(resolveFromSilent: (string, string) -> Option<string>,
                               relative: (string, string) -> string,
                               modulePath: string, specifier: string): (r: string)
    ensures var resolved := resolveFromSilent(modulePath, specifier);
            resolved.Some? && resolved.value != "" ==> r == RelativePath(relative, modulePath, resolved.value)
    ensures var resolved := resolveFromSilent(modulePath, specifier);
            resolved.None? || resolved.value == "" ==> r == specifier
  {
    var resolved := resolveFromSilent(modulePath, specifier);
    if resolved.Some? && resolved.value != "" then RelativePath(relative, modulePath, resolved.value)
    else specifier
  }

  /** A resolved specifier always comes back explicitly relative. */
  lemma ResolvedIsRelativeURL(resolveFromSilent: (string, string) -> Option<string>,
                              relative: (string, string) -> string,
                              modulePath: string, specifier: string)
    requires !HasLeadingDot(specifier)
    ensures var r := ResolveNpmSpecifier(resolveFromSilent, relative, modulePath, specifier);
            var resolved := resolveFromSilent(modulePath, specifier);
            HasLeadingDot(r) <==> (resolved.Some? && resolved.value != "")
  {
  }
}
