/**
 * The two requests index.php answers with the modelled core: the description update
 * posted by the inline editor, and the page that lists a directory. The filesystem is
 * passed in: `canon` is realpath(), `readFile` is is_readable() followed by reading the
 * file (None when it cannot be read), `write` is file_put_contents() succeeding or not,
 * and `scandir` gives the entries of a directory with their kind, size and mtime.
 */
module Requests {
  import opened Wrappers
  import opened Text
  import opened DescTable
  import opened Sidecar
  import opened Confinement
  import opened Listing
  import opened Navigation

  /** The path of the sidecar file in a directory (`"$dir/DESCRIPT.ION"`). */
  function SidecarPath(d: string): (r: string)
    ensures |r| > |d| && r[..|d|] == d
  {
    d + "/DESCRIPT.ION"
  }

  /** `$x ?? ''` for a request parameter. */
  function OrEmpty(x: Option<string>): (r: string)
    ensures x.Some? ==> r == x.value
    ensures x.None? ==> r == ""
  {
    match x
    case Some(v) => v
    case None => ""
  }

  /** What the update handler answers. */
  datatype Reply = Forbidden | Failed(error: string) | Saved

  /** The lines of a file as `file($f, FILE_IGNORE_NEW_LINES)` gives them, or none for an unreadable file. */
  function FileLines(text: Option<string>): seq<string> {
    match text
    case Some(s) => Lines(s)
    case None => []
  }

  /**
   * The POST `update_description` request (index.php:89-97, 102-160). The page's own
   * confinement check of the GET `dir` runs first; then the admin test, the check of
   * the posted `dir`, the read of the local sidecar, the edit and the write. `written`
   * is the file and the content handed to file_put_contents, when it is reached.
   */
  method UpdateDescription(isAdmin: bool, base: string, canon: string -> Option<string>,
                           getDir: Option<string>, postDir: Option<string>,
                           filename: Option<string>, description: Option<string>,
                           readFile: string -> Option<string>, write: (string, string) -> bool)
    returns (reply: Reply, written: Option<(string, string)>)
    ensures BrowseDir(base, getDir, canon).None? ==> reply == Forbidden && written.None?
    ensures BrowseDir(base, getDir, canon).Some? && !isAdmin ==>
      reply == Failed("Admin access required") && written.None?
    ensures BrowseDir(base, getDir, canon).Some? && isAdmin && UpdateDir(base, postDir, canon).None? ==>
      reply == Failed("Invalid directory") && written.None?
    ensures BrowseDir(base, getDir, canon).Some? && isAdmin && UpdateDir(base, postDir, canon).Some? ==>
      var path := SidecarPath(UpdateDir(base, postDir, canon).value);
      var content := Serialise(Apply(Read(FileLines(readFile(path)), false), OrEmpty(filename), OrEmpty(description)));
      && written == Some((path, content))
      && reply == (if write(path, content) then Saved else Failed("Could not write DESCRIPT.ION"))
  {
    if BrowseDir(base, getDir, canon).None? {
      return Forbidden, None;
    }
    if !isAdmin {
      return Failed("Admin access required"), None;
    }
    var name := OrEmpty(filename);
    var desc := OrEmpty(description);
    var target := UpdateDir(base, postDir, canon);
    if target.None? {
      return Failed("Invalid directory"), None;
    }
    var path := SidecarPath(target.value);
    var descriptions: Table := [];
    var text := readFile(path);
    if text.Some? {
      descriptions := ReadForUpdate(Lines(text.value));
    }
    descriptions := Apply(descriptions, name, desc);
    var content := Render(descriptions);
    written := Some((path, content));
    reply := if write(path, content) then Saved else Failed("Could not write DESCRIPT.ION");
  }

  /**
   * A saved edit is what the next update reads: the edited filename carries the new
   * description, or none when it was cleared, and every other filename keeps the
   * description it had, as long as the file held only writable pairs and the edit is
   * writable too. The directory written into is the canonical base or begins with it.
   */
  lemma SavedEditReadsBack(base: string, canon: string -> Option<string>, postDir: Option<string>,
                           name: string, desc: string, before: Option<string>)
    requires UpdateDir(base, postDir, canon).Some?
    requires Writable(Read(FileLines(before), false))
    requires ReadableName(name) && (desc == "" || ReadableDesc(desc))
    ensures var d := UpdateDir(base, postDir, canon).value;
      var t := Read(FileLines(before), false);
      var back := Read(Lines(Serialise(Apply(t, name, desc))), false);
      && |base| <= |d| && d[..|base|] == base
      && Lookup(back, name) == (if desc == "" then None else Some(desc))
      && forall k :: k != name ==> Lookup(back, k) == (if Lookup(t, k) == Some("") then None else Lookup(t, k))
  {
    var t := Read(FileLines(before), false);
    ResolveAdmits(base, OrEmpty(postDir), canon);
    assert UpdateDir(base, postDir, canon) == Resolve(base, OrEmpty(postDir), canon);
    EditIsReadBack(t, name, desc);
    forall k | k != name
      ensures Lookup(Kept(t), k) == (if Lookup(t, k) == Some("") then None else Lookup(t, k))
    {
      KeptLookup(t, k);
    }
  }

  /** The sidecar the page reads: the directory's own, else the one of the base, else none (index.php:171-174). */
  function MetaText(d: string, base: string, readFile: string -> Option<string>): (r: Option<string>)
    ensures readFile(SidecarPath(d)).Some? ==> r == readFile(SidecarPath(d))
    ensures readFile(SidecarPath(d)).None? ==> r == readFile(SidecarPath(base))
  {
    match readFile(SidecarPath(d))
    case Some(s) => Some(s)
    case None => readFile(SidecarPath(base))
  }

  /** What the page shows of a directory. */
  datatype Page = Page(dir: string, meta: Table, items: seq<Entry>, crumbs: seq<Crumb>)

  /** The context the page sorts with (index.php:228-230, 255). */
  function PageSort(sortParam: Option<string>, orderParam: Option<string>, meta: Table,
                    natcmp: (string, string) -> int): (ctx: SortCtx)
    ensures ctx.key == NormaliseSort(sortParam) && ctx.desc == NormaliseDesc(orderParam)
    ensures ctx.meta == meta && ctx.natcmp == natcmp
  {
    SortCtx(NormaliseSort(sortParam), NormaliseDesc(orderParam), meta, natcmp)
  }

  /**
   * A GET of the page (index.php:89-97, 168-230, 255-287, 346-358): None is the
   * "Forbidden" answer; otherwise the directory, the descriptions it shows, the
   * entries in the order they are listed and the breadcrumb as the code builds it,
   * which is the intended trail whenever the first folder's name is truthy.
   */
  method Browse(base: string, canon: string -> Option<string>, dirParam: Option<string>,
                qParam: Option<string>, sortParam: Option<string>, orderParam: Option<string>,
                readFile: string -> Option<string>, scandir: string -> seq<Entry>,
                natcmp: (string, string) -> int)
    returns (page: Option<Page>)
    ensures page.None? <==> BrowseDir(base, dirParam, canon).None?
    ensures page.Some? ==>
      var d := BrowseDir(base, dirParam, canon).value;
      var meta := Read(FileLines(MetaText(d, base, readFile)), true);
      && page.value.dir == d
      && page.value.meta == meta
      && page.value.items == InsertionSorted(Search(Visible(scandir(d)), OrEmpty(qParam), meta),
                                             Comparator(PageSort(sortParam, orderParam, meta, natcmp)))
      && page.value.crumbs == AsWrittenBreadcrumb(BrowseRel(dirParam))
    ensures page.Some? && Truthy(Explode(BrowseRel(dirParam), '/')[0]) ==>
      page.value.crumbs == Breadcrumb(BrowseRel(dirParam))
  {
    var rel := BrowseRel(dirParam);
    var dir := Resolve(base, rel, canon);
    if dir.None? {
      return None;
    }
    var d := dir.value;
    var meta: Table := [];
    var text := MetaText(d, base, readFile);
    if text.Some? {
      meta := ReadForDisplay(Lines(text.value));
    }
    assert meta == Read(FileLines(text), true);
    var found := Search(Visible(scandir(d)), OrEmpty(qParam), meta);
    var items := SortItems(found, Comparator(PageSort(sortParam, orderParam, meta, natcmp)));
    var crumbs := BuildBreadcrumbAsWritten(rel);
    page := Some(Page(d, meta, items, crumbs));
    if Truthy(Explode(rel, '/')[0]) {
      AsWrittenAgrees(rel);
    }
  }

  /** `$items` handed to usort: copied into an array, sorted in place, read back. */
  method SortItems(found: seq<Entry>, cmp: (Entry, Entry) -> int) returns (items: seq<Entry>)
    ensures items == InsertionSorted(found, cmp)
  {
    var a := new Entry[|found|](i requires 0 <= i < |found| => found[i]);
    assert a[..] == found;
    Usort(a, cmp);
    items := a[..];
  }

  /**
   * What the page lists: exactly the scanned entries that are not ".", "..", hidden,
   * or filtered out by the search, each as often as it was scanned; directories before
   * files; and, when strnatcasecmp's sign flips with its arguments, every entry placed
   * no later than the comparator allows against the next.
   */
  lemma ListingIsSortedSearch(scan: seq<Entry>, q: string, meta: Table, ctx: SortCtx, e: Entry)
    ensures var items := InsertionSorted(Search(Visible(scan), q, meta), Comparator(ctx));
      && multiset(items) == multiset(Search(Visible(scan), q, meta))
      && (e in items <==>
           && e in scan && !IsDotEntry(e.name) && !Hidden(e.name)
           && (q == "" || ContainsIgnoringCase(e.name, q) || ContainsIgnoringCase(DescOf(meta, e.name), q)))
    ensures Antisymmetric(ctx.natcmp) ==>
      var items := InsertionSorted(Search(Visible(scan), q, meta), Comparator(ctx));
      && Ordered(items, Comparator(ctx))
      && forall i, j :: 0 <= i < j < |items| && items[j].isDir ==> items[i].isDir
  {
    var found := Search(Visible(scan), q, meta);
    var items := InsertionSorted(found, Comparator(ctx));
    SortPermutes(found, Comparator(ctx));
    assert (e in items) == (e in multiset(items));
    ListedIff(scan, q, meta, e);
    if Antisymmetric(ctx.natcmp) {
      ComparatorConsistent(ctx);
      SortOrders(found, Comparator(ctx));
      forall i, j | 0 <= i < j < |items| && items[j].isDir ensures items[i].isDir {
        OrderedPutsDirectoriesFirst(items, ctx, i, j);
      }
    }
  }

  /** With no `dir`, or one of only slashes, the page lists the base itself and shows no breadcrumb. */
  lemma RootPage(base: string, canon: string -> Option<string>, dirParam: Option<string>)
    requires canon(base) == Some(base)
    requires dirParam.None? || forall k :: 0 <= k < |dirParam.value| ==> IsSlash(dirParam.value[k])
    ensures BrowseDir(base, dirParam, canon) == Some(base)
    ensures AsWrittenBreadcrumb(BrowseRel(dirParam)) == []
  {
    if dirParam.Some? {
      SlashesTrimAway(dirParam.value);
    }
    FalsyDirIsBase(base, dirParam, canon);
  }
}
