/**
 * The directory listing of index.php: hiding, the search filter, the sort parameters,
 * the comparator handed to usort and the sort itself.
 */
module Listing {
  import opened Wrappers
  import opened Text
  import opened DescTable
  import opened Classify

  /** One directory entry as scandir() and the stat calls see it. */
  datatype Entry = Entry(name: string, isDir: bool, size: nat, mtime: int)

  /** The names `$hide` lists (index.php:166), compared strictly. */
  predicate Hidden(n: string) {
    n == "index.php" || n == ".htaccess" || n == "DESCRIPT.ION" || n == "desc.js" || n == "_h5ai"
  }

  /** The entries array_diff removes before filtering (index.php:211). */
  predicate IsDotEntry(n: string) {
    n == "." || n == ".."
  }

  /** array_filter: the elements f keeps, in their order. */
  function Filter(s: seq<Entry>, f: Entry -> bool): (r: seq<Entry>)
    ensures |r| <= |s|
    ensures forall e :: e in r <==> e in s && f(e)
    ensures forall e :: multiset(r)[e] == if f(e) then multiset(s)[e] else 0
    decreases |s|
  {
    if s == [] then []
    else
      var u := s[..|s| - 1];
      assert s == u + [s[|s| - 1]];
      Filter(u, f) + (if f(s[|s| - 1]) then [s[|s| - 1]] else [])
  }

  /** The entries of a directory that the listing may show (index.php:211-212). */
  function Visible(scan: seq<Entry>): seq<Entry> {
    Filter(scan, (e: Entry) => !IsDotEntry(e.name) && !Hidden(e.name))
  }

  /** `$meta[$n] ?? ''`. */
  function DescOf(meta: Table, n: string): string {
    match Lookup(meta, n)
    case Some(d) => d
    case None => ""
  }

  /** The search test of index.php:218-221: q in the name or in the description, ignoring case. */
  predicate MatchesQuery(e: Entry, q: string, meta: Table) {
    StrIPos(e.name, q).Some? || StrIPos(DescOf(meta, e.name), q).Some?
  }

  /** `$q === ''` shows everything; otherwise the matching entries, in order (index.php:217-223). */
  function Search(items: seq<Entry>, q: string, meta: Table): seq<Entry> {
    if q == "" then items else Filter(items, (e: Entry) => MatchesQuery(e, q, meta))
  }

  /**
   * An entry is listed exactly when it is not "." or "..", not hidden, and q is empty
   * or occurs in its name or its description without regard to case.
   */
  lemma ListedIff(scan: seq<Entry>, q: string, meta: Table, e: Entry)
    ensures e in Search(Visible(scan), q, meta) <==>
      && e in scan && !IsDotEntry(e.name) && !Hidden(e.name)
      && (q == "" || ContainsIgnoringCase(e.name, q) || ContainsIgnoringCase(DescOf(meta, e.name), q))
  {
    StrIPosFinds(e.name, q);
    StrIPosFinds(DescOf(meta, e.name), q);
  }

  /** The columns a listing can be sorted by. */
  datatype SortKey = ByName | ByDate | BySize | ByType | ByDescription

  /**
   * `$sort` (index.php:228-229). A valid `sort` parameter selects its column and an
   * invalid one falls back to name, but a MISSING one passes the membership test through
   * the `'name'` default and then reads the absent parameter itself: `$sort` is null, None here.
   */
  function NormaliseSort(param: Option<string>): (r: Option<SortKey>)
    ensures param.None? <==> r.None?
    ensures param.Some? ==> (r == Some(ByName) <==> param.value !in {"date", "size", "type", "description"})
  {
    match param
    case None => None
    case Some(s) =>
      Some(if s == "date" then ByDate
        else if s == "size" then BySize
        else if s == "type" then ByType
        else if s == "description" then ByDescription
        else ByName)
  }

  /** `$order === 'desc'` exactly when the parameter is the string "desc" (index.php:230). */
  function NormaliseDesc(param: Option<string>): bool {
    param == Some("desc")
  }

  /** `<=>` on integers. */
  function Spaceship(x: int, y: int): (r: int)
    ensures r == -1 || r == 0 || r == 1
    ensures r < 0 <==> x < y
    ensures r > 0 <==> x > y
  {
    if x < y then -1 else if x > y then 1 else 0
  }

  /** Byte-wise comparison: the sign strcmp() gives. */
  function LexCompare(x: string, y: string): (r: int)
    ensures r == -1 || r == 0 || r == 1
    ensures r == 0 <==> x == y
  {
    if x == [] then (if y == [] then 0 else -1)
    else if y == [] then 1
    else if x[0] < y[0] then -1
    else if x[0] > y[0] then 1
    else
      var r := LexCompare(x[1..], y[1..]);
      assert x == [x[0]] + x[1..] && y == [y[0]] + y[1..];
      r
  }

  /** x is below y in the byte-wise order: a proper prefix, or smaller at the first difference. */
  ghost predicate LexBelow(x: string, y: string) {
    (|x| < |y| && y[..|x|] == x) || exists k :: 0 <= k < |x| && k < |y| && x[..k] == y[..k] && x[k] < y[k]
  }

  /** LexCompare is the byte-wise order, and swapping the arguments negates it. */
  lemma {:induction false} LexCompareOrder(x: string, y: string)
    ensures LexCompare(x, y) < 0 <==> LexBelow(x, y)
    ensures LexCompare(y, x) == -LexCompare(x, y)
    decreases |x|
  {
    if x != [] && y != [] {
      LexCompareOrder(x[1..], y[1..]);
      if x[0] == y[0] {
        LexBelowTail(x, y);
      } else {
        LexBelowHead(x, y);
      }
    }
  }

  /** Behind a common first character, the order is that of the rests. */
  lemma LexBelowTail(x: string, y: string)
    requires x != [] && y != [] && x[0] == y[0]
    ensures LexBelow(x, y) <==> LexBelow(x[1..], y[1..])
  {
    if LexBelow(x[1..], y[1..]) {
      if |x[1..]| < |y[1..]| && y[1..][..|x[1..]|] == x[1..] {
        assert y[..|x|] == [y[0]] + y[1..][..|x[1..]|];
        assert x == [x[0]] + x[1..];
      } else {
        var k :| 0 <= k < |x[1..]| && k < |y[1..]| && x[1..][..k] == y[1..][..k] && x[1..][k] < y[1..][k];
        assert x[..k + 1] == [x[0]] + x[1..][..k];
        assert y[..k + 1] == [y[0]] + y[1..][..k];
      }
    }
    if LexBelow(x, y) {
      if |x| < |y| && y[..|x|] == x {
        assert y[1..][..|x[1..]|] == y[..|x|][1..];
      } else {
        var k :| 0 <= k < |x| && k < |y| && x[..k] == y[..k] && x[k] < y[k];
        assert k > 0;
        assert x[1..][..k - 1] == x[1..k] == y[1..k] == y[1..][..k - 1];
      }
    }
  }

  /** Different first characters decide the order. */
  lemma LexBelowHead(x: string, y: string)
    requires x != [] && y != [] && x[0] != y[0]
    ensures LexBelow(x, y) <==> x[0] < y[0]
  {
    if x[0] < y[0] {
      assert x[..0] == y[..0];
    } else {
      assert |x| < |y| ==> y[..|x|][0] != x[0];
      forall k | 0 < k <= |x| && k <= |y| ensures x[..k] != y[..k] {
        assert x[..k][0] != y[..k][0];
      }
    }
  }

  /** strcasecmp: byte-wise after folding ASCII letters to lower case. */
  function StrCaseCmp(x: string, y: string): int {
    LexCompare(Lower(x), Lower(y))
  }

  /** What the comparator closes over (index.php:255): the sort column, the order, the metadata and strnatcasecmp. */
  datatype SortCtx = SortCtx(key: Option<SortKey>, desc: bool, meta: Table, natcmp: (string, string) -> int)

  /** A comparator whose sign flips when its arguments are swapped, as strnatcasecmp's does. */
  ghost predicate Antisymmetric(natcmp: (string, string) -> int) {
    forall x, y :: natcmp(x, y) > 0 <==> natcmp(y, x) < 0
  }

  /** `$cmp` of the comparator, for two entries of the same kind (index.php:264-285). */
  function ColumnCompare(a: Entry, b: Entry, ctx: SortCtx): int {
    match ctx.key
    case Some(ByDate) => Spaceship(a.mtime, b.mtime)
    case Some(BySize) => Spaceship(if a.isDir then 0 else a.size, if b.isDir then 0 else b.size)
    case Some(ByType) => StrCaseCmp(if a.isDir then "Dir" else FileType(a.name), if b.isDir then "Dir" else FileType(b.name))
    case Some(ByDescription) => StrCaseCmp(DescOf(ctx.meta, a.name), DescOf(ctx.meta, b.name))
    case _ => ctx.natcmp(a.name, b.name)
  }

  /** The usort callback (index.php:255-287): directories first, then the column, negated for desc. */
  function Compare(a: Entry, b: Entry, ctx: SortCtx): int {
    if a.isDir && !b.isDir then -1
    else if !a.isDir && b.isDir then 1
    else
      var cmp := ColumnCompare(a, b, ctx);
      if ctx.desc then -cmp else cmp
  }

  /** Swapping the arguments flips the comparator's sign, whatever the column and order. */
  lemma CompareAntisymmetric(a: Entry, b: Entry, ctx: SortCtx)
    requires Antisymmetric(ctx.natcmp)
    ensures Compare(a, b, ctx) > 0 <==> Compare(b, a, ctx) < 0
  {
    match ctx.key
    case Some(ByType) =>
      LexCompareOrder(Lower(if a.isDir then "Dir" else FileType(a.name)), Lower(if b.isDir then "Dir" else FileType(b.name)));
    case Some(ByDescription) =>
      LexCompareOrder(Lower(DescOf(ctx.meta, a.name)), Lower(DescOf(ctx.meta, b.name)));
    case _ =>
  }

  /**
   * A directory always precedes a file, in either order; within one kind, descending
   * order is the ascending comparison negated.
   */
  lemma DirectoriesFirst(a: Entry, b: Entry, ctx: SortCtx)
    ensures a.isDir && !b.isDir ==> Compare(a, b, ctx) < 0 && Compare(b, a, ctx) > 0
    ensures a.isDir == b.isDir ==> Compare(a, b, ctx) == Compare(a, b, ctx.(desc := false)) * (if ctx.desc then -1 else 1)
  {
  }

  /** Sorting by type puts no order among directories: they all have the type "Dir". */
  lemma TypeSortTiesDirectories(a: Entry, b: Entry, ctx: SortCtx)
    requires ctx.key == Some(ByType) && a.isDir && b.isDir
    ensures Compare(a, b, ctx) == 0
  {
  }

  /** Sorting by size ignores the size of directories. */
  lemma SizeSortIgnoresDirectorySize(a: Entry, b: Entry, ctx: SortCtx, n: nat)
    requires ctx.key == Some(BySize) && a.isDir
    ensures Compare(a.(size := n), b, ctx) == Compare(a, b, ctx)
  {
  }

  /** The comparator usort is handed, as a closure over ctx. */
  function Comparator(ctx: SortCtx): (Entry, Entry) -> int {
    (a: Entry, b: Entry) => Compare(a, b, ctx)
  }

  /** A comparator whose sign flips when its arguments are swapped. */
  ghost predicate Consistent<T(!new)>(cmp: (T, T) -> int) {
    forall x, y :: cmp(x, y) > 0 <==> cmp(y, x) < 0
  }

  /** The listing's comparator is consistent whenever strnatcasecmp is. */
  lemma ComparatorConsistent(ctx: SortCtx)
    requires Antisymmetric(ctx.natcmp)
    ensures Consistent(Comparator(ctx))
  {
    forall a, b ensures Compare(a, b, ctx) > 0 <==> Compare(b, a, ctx) < 0 {
      CompareAntisymmetric(a, b, ctx);
    }
  }

  /** Every element is placed no later than the next: the order usort establishes. */
  ghost predicate Ordered<T>(s: seq<T>, cmp: (T, T) -> int) {
    forall i :: 0 <= i < |s| - 1 ==> cmp(s[i], s[i + 1]) <= 0
  }

  /** One insertion step: x moves left past every trailing element the comparator places after it. */
  function Insert<T>(s: seq<T>, x: T, cmp: (T, T) -> int): (r: seq<T>)
    ensures |r| == |s| + 1
    decreases |s|
  {
    if s == [] then [x]
    else if cmp(s[|s| - 1], x) > 0 then Insert(s[..|s| - 1], x, cmp) + [s[|s| - 1]]
    else s + [x]
  }

  /** s sorted by insertion with the comparator. */
  function InsertionSorted<T>(s: seq<T>, cmp: (T, T) -> int): (r: seq<T>)
    ensures |r| == |s|
    decreases |s|
  {
    if s == [] then [] else Insert(InsertionSorted(s[..|s| - 1], cmp), s[|s| - 1], cmp)
  }

  lemma {:induction false} InsertPermutes<T>(s: seq<T>, x: T, cmp: (T, T) -> int)
    ensures multiset(Insert(s, x, cmp)) == multiset(s) + multiset{x}
    decreases |s|
  {
    if s != [] {
      assert s == s[..|s| - 1] + [s[|s| - 1]];
      if cmp(s[|s| - 1], x) > 0 {
        InsertPermutes(s[..|s| - 1], x, cmp);
      }
    }
  }

  lemma {:induction false} InsertOrdered<T(!new)>(s: seq<T>, x: T, cmp: (T, T) -> int)
    requires Consistent(cmp) && Ordered(s, cmp)
    ensures Ordered(Insert(s, x, cmp), cmp)
    ensures Insert(s, x, cmp)[|s|] == x || (s != [] && Insert(s, x, cmp)[|s|] == s[|s| - 1])
    decreases |s|
  {
    if s != [] {
      var u, y := s[..|s| - 1], s[|s| - 1];
      if cmp(y, x) > 0 {
        assert Ordered(u, cmp) by {
          forall i | 0 <= i < |u| - 1 ensures cmp(u[i], u[i + 1]) <= 0 { assert u[i] == s[i] && u[i + 1] == s[i + 1]; }
        }
        InsertOrdered(u, x, cmp);
        var v := Insert(u, x, cmp);
        var r := v + [y];
        assert cmp(v[|u|], y) <= 0;
        forall i | 0 <= i < |r| - 1 ensures cmp(r[i], r[i + 1]) <= 0 {
          if i < |u| { assert r[i] == v[i] && r[i + 1] == v[i + 1]; }
        }
      } else {
        var r := s + [x];
        forall i | 0 <= i < |r| - 1 ensures cmp(r[i], r[i + 1]) <= 0 {
          if i < |s| - 1 { assert r[i] == s[i] && r[i + 1] == s[i + 1]; }
        }
      }
    }
  }

  /** Sorting only reorders: the result holds the same elements, each as often. */
  lemma {:induction false} SortPermutes<T>(s: seq<T>, cmp: (T, T) -> int)
    ensures multiset(InsertionSorted(s, cmp)) == multiset(s)
    decreases |s|
  {
    if s != [] {
      SortPermutes(s[..|s| - 1], cmp);
      InsertPermutes(InsertionSorted(s[..|s| - 1], cmp), s[|s| - 1], cmp);
      assert s == s[..|s| - 1] + [s[|s| - 1]];
    }
  }

  /** With a consistent comparator, every element of the result is placed no later than the next. */
  lemma {:induction false} SortOrders<T(!new)>(s: seq<T>, cmp: (T, T) -> int)
    requires Consistent(cmp)
    ensures Ordered(InsertionSorted(s, cmp), cmp)
    decreases |s|
  {
    if s != [] {
      SortOrders(s[..|s| - 1], cmp);
      InsertOrdered(InsertionSorted(s[..|s| - 1], cmp), s[|s| - 1], cmp);
    }
  }

  /** In a listing ordered by the comparator no file comes before a directory. */
  lemma {:induction false} OrderedPutsDirectoriesFirst(s: seq<Entry>, ctx: SortCtx, i: nat, j: nat)
    requires Ordered(s, Comparator(ctx)) && i < j < |s| && s[j].isDir
    ensures s[i].isDir
    decreases j - i
  {
    if i + 1 < j {
      OrderedPutsDirectoriesFirst(s, ctx, i + 1, j);
    }
    assert Comparator(ctx)(s[i], s[i + 1]) <= 0;
  }

  /** usort (index.php:255-287), as insertion by adjacent swaps. */
  method Usort<T>(a: array<T>, cmp: (T, T) -> int)
    modifies a
    ensures a[..] == InsertionSorted(old(a[..]), cmp)
  {
    ghost var s := a[..];
    for i := 0 to a.Length
      invariant a[..i] == InsertionSorted(s[..i], cmp)
      invariant a[i..] == s[i..]
    {
      assert s[..i + 1] == s[..i] + [s[i]];
      InsertAt(a, i, cmp);
    }
    assert s[..a.Length] == s;
  }

  /** Moves a[i] left into the sorted prefix a[..i]; the elements after i stay. */
  method InsertAt<T>(a: array<T>, i: nat, cmp: (T, T) -> int)
    requires i < a.Length
    modifies a
    ensures a[..i + 1] == Insert(old(a[..i]), old(a[i]), cmp)
    ensures a[i + 1..] == old(a[i + 1..])
  {
    ghost var pre, x, post := a[..i], a[i], a[i + 1..];
    ghost var passed: seq<T> := [];
    assert a[..] == pre + [x] + post;
    assert pre[..i] == pre;
    var j := i;
    while j > 0 && cmp(a[j - 1], a[j]) > 0
      invariant 0 <= j <= i && |passed| == i - j
      invariant a[..] == pre[..j] + [x] + passed + post
      invariant Insert(pre, x, cmp) == Insert(pre[..j], x, cmp) + passed
    {
      ShapeAt(pre, x, passed, post, j);
      assert pre[..j] == pre[..j - 1] + [pre[j - 1]];
      StepPast(pre[..j - 1], pre[j - 1], x, passed, cmp, Insert(pre, x, cmp));
      SwapShape(pre, x, passed, post, j);
      Swap(a, j - 1, j);
      passed := [pre[j - 1]] + passed;
      j := j - 1;
    }
    assert a[j] == x;
    InsertStays(pre[..j], x, cmp);
    assert a[..i + 1] == (pre[..j] + [x] + passed + post)[..i + 1];
  }

  /** Exchanges two cells of an array. */
  method Swap<T>(a: array<T>, i: nat, j: nat)
    requires i < a.Length && j < a.Length
    modifies a
    ensures a[..] == old(a[..])[i := old(a[j])][j := old(a[i])]
  {
    a[i], a[j] := a[j], a[i];
  }

  /** While x is being moved left, its left neighbour is the last element of the prefix not yet passed. */
  lemma ShapeAt<T>(pre: seq<T>, x: T, passed: seq<T>, post: seq<T>, j: nat)
    requires 0 < j <= |pre|
    ensures (pre[..j] + [x] + passed + post)[j - 1] == pre[j - 1]
    ensures (pre[..j] + [x] + passed + post)[j] == x
  {
  }

  /** Passing one more element that sorts after x keeps the insertion result split at the new position. */
  lemma StepPast<T>(p: seq<T>, y: T, x: T, passed: seq<T>, cmp: (T, T) -> int, whole: seq<T>)
    requires cmp(y, x) > 0 && whole == Insert(p + [y], x, cmp) + passed
    ensures whole == Insert(p, x, cmp) + ([y] + passed)
  {
    InsertPast(p, y, x, cmp);
  }

  /** Swapping x with its left neighbour moves that neighbour to the front of the passed elements. */
  lemma SwapShape<T>(pre: seq<T>, x: T, passed: seq<T>, post: seq<T>, j: nat)
    requires 0 < j <= |pre|
    ensures (pre[..j] + [x] + passed + post)[j - 1 := x][j := pre[j - 1]]
      == pre[..j - 1] + [x] + ([pre[j - 1]] + passed) + post
  {
    var l := (pre[..j] + [x] + passed + post)[j - 1 := x][j := pre[j - 1]];
    var r := pre[..j - 1] + [x] + ([pre[j - 1]] + passed) + post;
    assert |l| == |r|;
    forall k | 0 <= k < |l| ensures l[k] == r[k] {
      if k < j - 1 {
      } else if k > j {
        assert l[k] == (pre[..j] + [x] + passed + post)[k];
      }
    }
  }

  lemma InsertPast<T>(p: seq<T>, y: T, x: T, cmp: (T, T) -> int)
    requires cmp(y, x) > 0
    ensures Insert(p + [y], x, cmp) == Insert(p, x, cmp) + [y]
  {
    assert (p + [y])[..|p|] == p;
  }

  lemma InsertStays<T>(p: seq<T>, x: T, cmp: (T, T) -> int)
    requires p == [] || cmp(p[|p| - 1], x) <= 0
    ensures Insert(p, x, cmp) == p + [x]
  {
  }

  /** Sorting a folder and two files by size, descending: the folder first, then the larger file. */
  lemma SizeDescScenario(natcmp: (string, string) -> int, t: int)
    ensures
      var a, b, docs := Entry("a.txt", false, 10, t), Entry("b.txt", false, 500, t), Entry("docs", true, 4096, t);
      InsertionSorted([a, b, docs], Comparator(SortCtx(Some(BySize), true, [], natcmp))) == [docs, b, a]
  {
    var a, b, docs := Entry("a.txt", false, 10, t), Entry("b.txt", false, 500, t), Entry("docs", true, 4096, t);
    var cmp := Comparator(SortCtx(Some(BySize), true, [], natcmp));
    assert [a, b, docs][..2] == [a, b] && [a, b][..1] == [a] && [a][..0] == [];
    assert InsertionSorted([a], cmp) == [a];
    assert cmp(a, b) > 0;
    assert InsertionSorted([a, b], cmp) == Insert([a], b, cmp) == [b, a];
    assert cmp(a, docs) > 0 && cmp(b, docs) > 0;
    assert [b, a][..1] == [b];
    assert Insert([b, a], docs, cmp) == Insert([b], docs, cmp) + [a];
    assert [b][..0] == [];
    assert Insert([b], docs, cmp) == Insert([], docs, cmp) + [b] == [docs, b];
    assert InsertionSorted([a, b, docs], cmp) == Insert(InsertionSorted([a, b], cmp), docs, cmp);
  }

  /** Searching "note": a file without a description drops out, one described as "release notes" stays. */
  lemma SearchScenario(t: int)
    ensures
      var a, b := Entry("a.txt", false, 10, t), Entry("b.txt", false, 500, t);
      Search([a, b], "note", [Pair("b.txt", "release notes")]) == [b]
  {
    var a, b := Entry("a.txt", false, 10, t), Entry("b.txt", false, 500, t);
    var meta := [Pair("b.txt", "release notes")];
    NoteMatchesOnlyB(a, b, meta);
    var r := Search([a, b], "note", meta);
    assert forall e :: e in r <==> e == b;
    assert multiset(r)[b] == 1;
    assert |r| == 1 by {
      assert multiset(r) == multiset{b};
    }
  }

  lemma NoteMatchesOnlyB(a: Entry, b: Entry, meta: Table)
    requires a.name == "a.txt" && b.name == "b.txt" && meta == [Pair("b.txt", "release notes")]
    ensures MatchesQuery(b, "note", meta) && !MatchesQuery(a, "note", meta)
  {
    assert DescOf(meta, "a.txt") == "";
    LowerKeeps("a.txt");
    LowerKeeps("note");
    LowerKeeps("release notes");
    assert "a.txt"[0..4][0] == 'a' && "a.txt"[1..5][0] == '.';
    assert StrIPos("a.txt", "note").None?;
    assert StrIPos("", "note").None?;
    assert "release notes"[8..12] == "note";
    assert OccursAt("release notes", "note", 8);
  }
}
