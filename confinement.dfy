/**
 * Resolving the requested directory of index.php and keeping it inside the served
 * directory. The filesystem's realpath() is the parameter `canon`: the canonical
 * absolute form of a path, or None when the path does not exist.
 */
module Confinement {
  import opened Wrappers
  import opened Text

  /** DIRECTORY_SEPARATOR on the systems the browser is served from. */
  const Separator: char := '/'

  /** A character `trim($_GET['dir'], "/\\")` strips. */
  predicate IsSlash(c: char) {
    c == '/' || c == '\\'
  }

  /** `$baseDir . ($rel ? DIRECTORY_SEPARATOR . $rel : '')`: "" and "0" are falsy and add nothing. */
  function Join(base: string, rel: string): (r: string)
    ensures Truthy(rel) ==> r == base + [Separator] + rel
    ensures !Truthy(rel) ==> r == base
    ensures |base| <= |r| && r[..|base|] == base && (|r| == |base| <==> !Truthy(rel))
  {
    base + (if Truthy(rel) then [Separator] + rel else "")
  }

  /** The containment test `strpos($dir, $baseDir) !== 0` negated: base occurs at offset 0. */
  predicate Confined(d: string, base: string) {
    StrPos(d, base) == Some(0)
  }

  /**
   * realpath() of the joined path, accepted only when it exists and begins with base
   * (index.php:91-97 and 115-119); None is the "Forbidden" / "Invalid directory" answer.
   */
  function Resolve(base: string, rel: string, canon: string -> Option<string>): (r: Option<string>)
  {
    match canon(Join(base, rel))
    case None => None
    case Some(d) => if Confined(d, base) then Some(d) else None
  }

  /** `$rel` of the page: the `dir` query parameter with slashes and backslashes trimmed, or "" (index.php:90). */
  function BrowseRel(dirParam: Option<string>): (r: string)
    ensures r == [] || (!IsSlash(r[0]) && !IsSlash(r[|r| - 1]))
  {
    match dirParam
    case None => ""
    case Some(x) => TrimBy(x, IsSlash)
  }

  /** The directory a page request lists (index.php:89-97). */
  function BrowseDir(base: string, dirParam: Option<string>, canon: string -> Option<string>): Option<string> {
    Resolve(base, BrowseRel(dirParam), canon)
  }

  /** The directory an edit writes into: the posted `dir`, NOT trimmed (index.php:112-119). */
  function UpdateDir(base: string, dirParam: Option<string>, canon: string -> Option<string>): Option<string> {
    Resolve(base, match dirParam case None => "" case Some(x) => x, canon)
  }

  /**
   * What the check admits, stated without strpos: exactly the existing paths whose
   * canonical form starts with the characters of base.
   */
  lemma ResolveAdmits(base: string, rel: string, canon: string -> Option<string>)
    ensures Resolve(base, rel, canon).Some? <==>
      canon(Join(base, rel)).Some? && |base| <= |canon(Join(base, rel)).value|
      && canon(Join(base, rel)).value[..|base|] == base
    ensures Resolve(base, rel, canon).Some? ==> Resolve(base, rel, canon) == canon(Join(base, rel))
  {
    if canon(Join(base, rel)).Some? {
      StrPosZeroIsPrefix(canon(Join(base, rel)).value, base);
    }
  }

  /** An empty, "0" or slashes-only `dir` lists the served directory itself. */
  lemma FalsyDirIsBase(base: string, dirParam: Option<string>, canon: string -> Option<string>)
    requires canon(base) == Some(base)
    requires !Truthy(BrowseRel(dirParam))
    ensures BrowseDir(base, dirParam, canon) == Some(base)
  {
    ResolveAdmits(base, BrowseRel(dirParam), canon);
  }

  /** A `dir` made only of slashes and backslashes trims to nothing. */
  lemma SlashesTrimAway(x: string)
    requires forall k :: 0 <= k < |x| ==> IsSlash(x[k])
    ensures BrowseRel(Some(x)) == ""
  {
  }

  /**
   * The check compares characters, not path components: a directory beside base whose
   * name merely extends base's name (base + "2", reached by `dir=../files2` for a base
   * ending in "files") is admitted.
   */
  lemma SiblingPassesPrefixCheck(base: string, rel: string, canon: string -> Option<string>, tail: string)
    requires canon(Join(base, rel)) == Some(base + tail)
    ensures Resolve(base, rel, canon) == Some(base + tail)
  {
    ResolveAdmits(base, rel, canon);
    assert (base + tail)[..|base|] == base;
  }

  /** Whatever directory is admitted lies in the canonical base or starts with its name. */
  lemma AdmittedStartsWithBase(base: string, dirParam: Option<string>, canon: string -> Option<string>)
    requires BrowseDir(base, dirParam, canon).Some?
    ensures var d := BrowseDir(base, dirParam, canon).value; |base| <= |d| && d[..|base|] == base
  {
    ResolveAdmits(base, BrowseRel(dirParam), canon);
  }
}
