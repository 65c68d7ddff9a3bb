/**
 * Path and URL string helpers (src/support/path-utils.ts), with posix
 * separators. `posix.relative` and `path.resolve` are foreign functions and
 * are passed in as parameters.
 */
module PathUtils {
  import opened JsString

  /** A URL path that is explicitly relative: it starts with `./` or `../`. */
  predicate HasLeadingDot(p: string)
  {
    StartsWith(p, "../") || StartsWith(p, "./")
  }

  /**
   * `dirname`: drops the final run of non-`/` characters; a path ending in
   * `/` names a folder and is returned as it is.
   */
  function Dirname(path: string): (r: string)
    ensures StartsWith(path, r)
    ensures r == [] || EndsWith(r, "/")
    ensures forall i | |r| <= i < |path| :: path[i] != '/'
    ensures EndsWith(path, "/") ==> r == path
  {
    StripFinalSegment(path)
  }

  lemma DirnameIdempotent(path: string)
    ensures Dirname(Dirname(path)) == Dirname(path)
  {
  }

  /** The two documented cases of `dirname`. */
  lemma DirnameExamples()
    ensures Dirname("/a/b/c") == "/a/b/"
    ensures Dirname("/a/b/c/") == "/a/b/c/"
  {
    assert Dirname("/a/b/c") == Dirname("/a/b/");
  }

  function EnsureLeadingDotInURL(path: string): (r: string)
    ensures HasLeadingDot(r)
    ensures HasLeadingDot(path) ==> r == path
    ensures !HasLeadingDot(path) ==> r == "./" + path
  {
    if HasLeadingDot(path) then path else "./" + path
  }

  lemma EnsureLeadingDotInURLIdempotent(path: string)
    ensures EnsureLeadingDotInURL(EnsureLeadingDotInURL(path)) == EnsureLeadingDotInURL(path)
  {
  }

  function EnsureTrailingSlashInPath(path: string): (r: string)
    ensures EndsWith(r, "/") && StartsWith(r, path)
    ensures EndsWith(path, "/") ==> r == path
    ensures !EndsWith(path, "/") ==> r == path + "/"
  {
    if EndsWith(path, "/") then path else path + "/"
  }

  lemma EnsureTrailingSlashInPathIdempotent(path: string)
    ensures EnsureTrailingSlashInPath(EnsureTrailingSlashInPath(path)) == EnsureTrailingSlashInPath(path)
  {
  }

  /** `forwardSlashesOnlyPlease`: every `\` becomes `/`, nothing else moves or changes. */
  function ForwardSlashesOnlyPlease(path: string): (r: string)
    ensures |r| == |path| && '\\' !in r
    ensures forall i | 0 <= i < |path| && path[i] != '\\' :: r[i] == path[i]
    ensures forall i | 0 <= i < |path| && path[i] == '\\' :: r[i] == '/'
  {
    ReplaceBackslashes(path)
  }

  /** `getBaseURL`: everything up to and including the last `/`. */
  function GetBaseURL(href: string): (r: string)
    ensures StartsWith(href, r)
    ensures r == [] || EndsWith(r, "/")
    ensures forall i | |r| <= i < |href| :: href[i] != '/'
  {
    StripFinalSegment(href)
  }

  /** `noTrailingSlashInPath`: at most one `/`, and only at the end, is removed. */
  function NoTrailingSlashInPath(path: string): (r: string)
    ensures EndsWith(path, "/") ==> r + "/" == path
    ensures !EndsWith(path, "/") ==> r == path
  {
    if EndsWith(path, "/") then path[..|path| - 1] else path
  }

  /** `noLeadingSlashInURL`: at most one `/`, and only at the start, is removed. */
  function NoLeadingSlashInURL(href: string): (r: string)
    ensures StartsWith(href, "/") ==> "/" + r == href
    ensures !StartsWith(href, "/") ==> r == href
  {
    if StartsWith(href, "/") then href[1..] else href
  }

  /** Only one slash goes: `//x` keeps its second slash. */
  lemma NoLeadingSlashInURLRemovesOne()
    ensures NoLeadingSlashInURL("//x") == "/x"
    ensures NoTrailingSlashInPath("x//") == "x/"
  {
    assert "//x"[1..] == "/x";
    assert "x//"[..2] == "x/";
  }

  /**
   * `relativePathToURL`: the relative path from the folder of `from` to `to`,
   * both with forward slashes, made explicitly relative.
   */
  function RelativePathToURL(relative: (string, string) -> string, from: string, to: string): (r: string)
    ensures HasLeadingDot(r)
    ensures var rel := relative(GetBaseURL(ForwardSlashesOnlyPlease(from)), ForwardSlashesOnlyPlease(to));
            r == rel || r == "./" + rel
  {
    EnsureLeadingDotInURL(relative(GetBaseURL(ForwardSlashesOnlyPlease(from)), ForwardSlashesOnlyPlease(to)))
  }

  /** `isDirectorySpecifier`: the last segment is empty, `.` or `..`. */
  predicate IsDirectorySpecifier(specifier: string)
  {
    var last := LastSegment(specifier);
    last == "" || last == "." || last == ".."
  }

  /** The same test read off the text: a specifier naming a folder ends in `/`, `.` or `..` as a whole segment. */
  lemma IsDirectorySpecifierEnds(s: string)
    ensures IsDirectorySpecifier(s) <==>
      (s == "" || s == "." || s == ".." || EndsWith(s, "/") || EndsWith(s, "/.") || EndsWith(s, "/.."))
  {
    assert "/" + "" == "/" && "/" + "." == "/." && "/" + ".." == "/..";
    LastSegmentIs(s, "");
    LastSegmentIs(s, ".");
    LastSegmentIs(s, "..");
  }

  /**
   * `resolvePathPreserveTrailingSlash`: `path.resolve(from, to)`, plus one `/`
   * exactly when `to` names a folder.
   */
  function ResolvePathPreserveTrailingSlash(resolve: (string, string) -> string, from: string, to: string): (r: string)
    ensures IsDirectorySpecifier(to) ==> r == resolve(from, to) + "/"
    ensures !IsDirectorySpecifier(to) ==> r == resolve(from, to)
  {
    var resolvedPath := resolve(from, to);
    if IsDirectorySpecifier(to) then resolvedPath + "/" else resolvedPath
  }

  /** The documented cases: `c/` and `` name folders, `c` does not. */
  lemma ResolvePathPreserveTrailingSlashExamples(resolve: (string, string) -> string)
    ensures ResolvePathPreserveTrailingSlash(resolve, "/a/b", "c/") == resolve("/a/b", "c/") + "/"
    ensures ResolvePathPreserveTrailingSlash(resolve, "/a/b", "c") == resolve("/a/b", "c")
    ensures ResolvePathPreserveTrailingSlash(resolve, "/a/b", "") == resolve("/a/b", "") + "/"
  {
    assert IsDirectorySpecifier("c/") by {
      assert LastSegment("c/") == "";
    }
    assert !IsDirectorySpecifier("c") by {
      assert LastSegment("c") == "c";
    }
    assert IsDirectorySpecifier("");
  }
}
