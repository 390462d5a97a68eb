/**
 * The navigation of the page: the breadcrumb trail of filelight_buildBreadcrumb and the
 * column-header links of filelight_sortLink.
 */
module Navigation {
  import opened Wrappers
  import opened Text
  import opened Listing

  /** One breadcrumb: a folder name and the `dir` value that lists it. */
  datatype Crumb = Crumb(name: string, path: string)

  /** The trail the breadcrumb is meant to show: part k links to the first k + 1 parts joined by '/'. */
  function Trail(parts: seq<string>): (r: seq<Crumb>)
    ensures |r| == |parts|
  {
    seq(|parts|, k requires 0 <= k < |parts| => Crumb(parts[k], Implode(parts[..k + 1], '/')))
  }

  /** The breadcrumb for `$rel`: none for a falsy rel, otherwise the trail of its '/'-separated parts. */
  function Breadcrumb(rel: string): seq<Crumb> {
    if !Truthy(rel) then [] else Trail(Explode(rel, '/'))
  }

  /** `$path` after the loop of index.php:350-353 has consumed parts, as written: '/' only after a truthy path. */
  function AsWrittenPath(parts: seq<string>): string
    decreases |parts|
  {
    if parts == [] then ""
    else
      var q := AsWrittenPath(parts[..|parts| - 1]);
      q + (if Truthy(q) then "/" else "") + parts[|parts| - 1]
  }

  /** The trail the loop of index.php:346-356 builds. */
  function AsWrittenTrail(parts: seq<string>): (r: seq<Crumb>)
    ensures |r| == |parts|
  {
    seq(|parts|, k requires 0 <= k < |parts| => Crumb(parts[k], AsWrittenPath(parts[..k + 1])))
  }

  /** The breadcrumb index.php:346-358 gives the page for `$rel`: none for a falsy rel, otherwise the trail as written. */
  function AsWrittenBreadcrumb(rel: string): seq<Crumb> {
    if !Truthy(rel) then [] else AsWrittenTrail(Explode(rel, '/'))
  }

  /** filelight_buildBreadcrumb exactly as index.php:346-356 writes it. */
  method BuildBreadcrumbAsWritten(rel: string) returns (crumbs: seq<Crumb>)
    ensures crumbs == AsWrittenBreadcrumb(rel)
  {
    if !Truthy(rel) {
      return [];
    }
    var parts := Explode(rel, '/');
    crumbs := [];
    var path := "";
    for i := 0 to |parts|
      invariant path == AsWrittenPath(parts[..i])
      invariant crumbs == AsWrittenTrail(parts[..i])
    {
      assert parts[..i + 1][..i] == parts[..i];
      path := path + (if Truthy(path) then "/" else "") + parts[i];
      assert path == AsWrittenPath(parts[..i + 1]);
      ghost var before := crumbs;
      crumbs := crumbs + [Crumb(parts[i], path)];
      assert crumbs == AsWrittenTrail(parts[..i + 1]) by {
        forall k | 0 <= k < i + 1 ensures crumbs[k] == AsWrittenTrail(parts[..i + 1])[k] {
          if k < i {
            assert parts[..i + 1][..k + 1] == parts[..k + 1] == parts[..i][..k + 1];
            assert crumbs[k] == before[k] == AsWrittenTrail(parts[..i])[k];
          } else {
            assert parts[..i + 1][..k + 1] == parts[..i + 1];
          }
        }
      }
    }
    assert parts[..|parts|] == parts;
  }

  /** The breadcrumb with the separator written before every part but the first. */
  method BuildBreadcrumb(rel: string) returns (crumbs: seq<Crumb>)
    ensures crumbs == Breadcrumb(rel)
  {
    if !Truthy(rel) {
      return [];
    }
    var parts := Explode(rel, '/');
    crumbs := [];
    var path := "";
    for i := 0 to |parts|
      invariant i > 0 ==> path == Implode(parts[..i], '/')
      invariant crumbs == Trail(parts[..i])
    {
      ghost var before := crumbs;
      if i > 0 {
        ImplodeSnoc(parts[..i], parts[i], '/');
        assert parts[..i] + [parts[i]] == parts[..i + 1];
        path := path + "/" + parts[i];
      } else {
        assert parts[..1] == [parts[0]];
        path := parts[i];
      }
      assert path == Implode(parts[..i + 1], '/');
      crumbs := crumbs + [Crumb(parts[i], path)];
      assert crumbs == Trail(parts[..i + 1]) by {
        forall k | 0 <= k < i + 1 ensures crumbs[k] == Trail(parts[..i + 1])[k] {
          if k < i {
            assert parts[..i + 1][..k + 1] == parts[..k + 1] == parts[..i][..k + 1];
            assert crumbs[k] == before[k] == Trail(parts[..i])[k];
          } else {
            assert parts[..i + 1][..k + 1] == parts[..i + 1];
          }
        }
      }
    }
    assert parts[..|parts|] == parts;
  }

  /**
   * Each crumb is named after one folder of rel, in order, and the last links to rel
   * itself; no part is lost or duplicated.
   */
  lemma BreadcrumbEndsAtRel(rel: string)
    requires Truthy(rel)
    ensures var c := Breadcrumb(rel);
      && |c| == |Explode(rel, '/')| && c != []
      && (forall k :: 0 <= k < |c| ==> c[k].name == Explode(rel, '/')[k])
      && c[|c| - 1].path == rel
  {
    var parts := Explode(rel, '/');
    assert parts[..|parts|] == parts;
    ImplodeExplode(rel, '/');
  }

  /** The written path equals the joined parts as long as the first part is truthy. */
  lemma {:induction false} AsWrittenPathJoins(parts: seq<string>)
    requires parts != [] && Truthy(parts[0])
    ensures AsWrittenPath(parts) == Implode(parts, '/')
    decreases |parts|
  {
    var u := parts[..|parts| - 1];
    if u != [] {
      AsWrittenPathJoins(u);
      ImplodeSnoc(u, parts[|parts| - 1], '/');
      assert u + [parts[|parts| - 1]] == parts;
      if |u| == 1 {
        assert Implode(u, '/') == u[0];
      } else {
        ImplodeSnoc(u[..|u| - 1], u[|u| - 1], '/');
        assert u[..|u| - 1] + [u[|u| - 1]] == u;
      }
    } else {
      assert AsWrittenPath(parts) == "" + "" + parts[0];
    }
  }

  /** The code as written builds the intended trail whenever the first folder's name is truthy. */
  lemma AsWrittenAgrees(rel: string)
    requires Truthy(Explode(rel, '/')[0])
    ensures AsWrittenTrail(Explode(rel, '/')) == Trail(Explode(rel, '/'))
  {
    var parts := Explode(rel, '/');
    forall k | 0 <= k < |parts| ensures AsWrittenTrail(parts)[k] == Trail(parts)[k] {
      AsWrittenPathJoins(parts[..k + 1]);
    }
  }

  /**
   * A first folder named "0" is falsy: for rel "0/x" the code as written links the
   * crumb "x" to "0x", a folder that need not exist, instead of "0/x".
   */
  lemma ZeroFolderBreadcrumb()
    ensures Explode("0/x", '/') == ["0", "x"]
    ensures AsWrittenTrail(["0", "x"])[1] == Crumb("x", "0x")
    ensures Breadcrumb("0/x")[1] == Crumb("x", "0/x")
  {
    assert IndexOf("0/x", '/') == Some(1);
    assert "0/x"[2..] == "x" && "0/x"[..1] == "0";
    assert IndexOf("x", '/') == None;
    assert Explode("x", '/') == ["x"];
    assert ["0", "x"][..1] == ["0"];
    assert ["0", "x"][..2] == ["0", "x"];
    assert AsWrittenPath(["0"]) == "0";
  }

  /** The `sort` value a column's link carries (index.php:228, 376). */
  function KeyName(k: SortKey): string {
    match k
    case ByName => "name"
    case ByDate => "date"
    case BySize => "size"
    case ByType => "type"
    case ByDescription => "description"
  }

  /** `$newOrder`: descending only for the column already sorted ascending (index.php:372). */
  function NextDesc(column: SortKey, current: Option<SortKey>, desc: bool): bool {
    current == Some(column) && !desc
  }

  /** The query parameters of the link (index.php:373-377); `encode` is rawurlencode. */
  function LinkParams(column: SortKey, current: Option<SortKey>, desc: bool, rel: string, q: string,
                      encode: string -> string): seq<string>
  {
    (if rel != "" then ["dir=" + encode(rel)] else [])
    + (if q != "" then ["q=" + encode(q)] else [])
    + ["sort=" + KeyName(column), "order=" + (if NextDesc(column, current, desc) then "desc" else "asc")]
  }

  /** filelight_sortLink (index.php:371-379). */
  function SortLink(column: SortKey, current: Option<SortKey>, desc: bool, rel: string, q: string,
                    encode: string -> string): string
  {
    "?" + Implode(LinkParams(column, current, desc, rel, q, encode), '&')
  }

  /**
   * Following a column's link sorts by that column, descending exactly when the page
   * was already sorted by it ascending: the header toggles the order of the current column.
   */
  lemma SortLinkToggles(column: SortKey, current: Option<SortKey>, desc: bool, rel: string, q: string,
                        encode: string -> string)
    ensures var p := LinkParams(column, current, desc, rel, q, encode);
      && NormaliseSort(Some(p[|p| - 2][5..])) == Some(column)
      && NormaliseDesc(Some(p[|p| - 1][6..])) == (current == Some(column) && !desc)
  {
    var p := LinkParams(column, current, desc, rel, q, encode);
    assert p[|p| - 2] == "sort=" + KeyName(column);
    assert p[|p| - 2][5..] == KeyName(column);
    assert p[|p| - 1][6..] == if NextDesc(column, current, desc) then "desc" else "asc";
  }

  /**
   * Without a `sort` parameter `$sort` is null, so no column counts as current and even
   * the name column, by which the listing is then sorted, links to ascending order.
   */
  lemma UnsortedPageLinksAscend(column: SortKey, desc: bool)
    ensures !NextDesc(column, NormaliseSort(None), desc)
  {
  }
}
