/**
 * The DESCRIPT.ION sidecar of index.php: the two readers (the update handler's and the
 * display loader's), the map change an edit makes, and the writer's line layout.
 */
module Sidecar {
  import opened Wrappers
  import opened Text
  import opened DescTable
  import opened SidecarGrammar

  /** A trimmed line that carries no entry: blank, or a `#` comment. */
  predicate Ignored(s: string) {
    s == "" || s[0] == '#'
  }

  /** The pair one raw line gives the update handler's reader, if any (index.php:126-131). */
  function UpdateEntry(line: string): Option<(string, string)> {
    var s := Trim(line);
    if Ignored(s) then None
    else match SplitFields(s)
      case None => None
      case Some((name, desc)) => Some((Trim(name), Trim(desc)))
  }

  /** The pair one raw line gives the display loader, if any (index.php:178-193). */
  function DisplayEntry(line: string): Option<(string, string)> {
    var s := Trim(line);
    if Ignored(s) then None
    else match ExtensionMatch(s)
      case Some((name, desc)) => Some((Trim(name), Trim(desc)))
      case None =>
        match SplitFields(s)
        case None => None
        case Some((name, desc)) => Some((Trim(name), Trim(desc)))
  }

  /** Fold the pairs of the lines into a table, later lines overwriting earlier ones. */
  function Read(lines: seq<string>, display: bool): Table
    decreases |lines|
  {
    if lines == [] then []
    else
      var t := Read(lines[..|lines| - 1], display);
      var line := lines[|lines| - 1];
      match (if display then DisplayEntry(line) else UpdateEntry(line))
      case None => t
      case Some((name, desc)) => Put(t, name, desc)
  }

  /** The last pair any line gives for the filename k: an independent statement of "last line wins". */
  function LastFor(lines: seq<string>, display: bool, k: string): Option<string>
    decreases |lines|
  {
    if lines == [] then None
    else
      var entry := if display then DisplayEntry(lines[|lines| - 1]) else UpdateEntry(lines[|lines| - 1]);
      if entry.Some? && entry.value.0 == k then Some(entry.value.1)
      else LastFor(lines[..|lines| - 1], display, k)
  }

  /**
   * Reading is a map fold: each filename gets the description of the LAST line that
   * names it, and lines that are blank, comments or have no two-field split add nothing.
   */
  lemma {:induction false} ReadKeepsLastLine(lines: seq<string>, display: bool, k: string)
    ensures Lookup(Read(lines, display), k) == LastFor(lines, display, k)
    decreases |lines|
  {
    if lines != [] {
      ReadKeepsLastLine(lines[..|lines| - 1], display, k);
    }
  }

  /** A table read from a file never holds a filename twice. */
  lemma {:induction false} ReadHasUniqueKeys(lines: seq<string>, display: bool)
    ensures UniqueKeys(Read(lines, display))
    decreases |lines|
  {
    if lines != [] {
      var t := Read(lines[..|lines| - 1], display);
      ReadHasUniqueKeys(lines[..|lines| - 1], display);
      match (if display then DisplayEntry(lines[|lines| - 1]) else UpdateEntry(lines[|lines| - 1]))
      case None =>
      case Some((name, desc)) => PutKeepsKeysUnique(t, name, desc);
    }
  }

  /** The update handler's first loop (index.php:122-133) over the lines of the local file. */
  method ReadForUpdate(lines: seq<string>) returns (t: Table)
    ensures t == Read(lines, false)
  {
    t := [];
    for i := 0 to |lines|
      invariant t == Read(lines[..i], false)
    {
      assert lines[..i + 1][..i] == lines[..i];
      var line := Trim(lines[i]);
      if line == "" || line[0] == '#' {
        continue;
      }
      var parts := SplitFields(line);
      if parts.Some? {
        t := Put(t, Trim(parts.value.0), Trim(parts.value.1));
      }
    }
    assert lines[..|lines|] == lines;
  }

  /** The display loader's loop (index.php:175-195): the extension-aware pattern first, then the generic split. */
  method ReadForDisplay(lines: seq<string>) returns (t: Table)
    ensures t == Read(lines, true)
  {
    t := [];
    for i := 0 to |lines|
      invariant t == Read(lines[..i], true)
    {
      assert lines[..i + 1][..i] == lines[..i];
      var line := Trim(lines[i]);
      if line == "" || line[0] == '#' {
        continue;
      }
      var matches := ExtensionMatch(line);
      if matches.Some? {
        t := Put(t, Trim(matches.value.0), Trim(matches.value.1));
      } else {
        var parts := SplitFields(line);
        if parts.Some? {
          t := Put(t, Trim(parts.value.0), Trim(parts.value.1));
        }
      }
    }
    assert lines[..|lines|] == lines;
  }

  /** The edit of index.php:136-140: an empty description removes the key, any other sets it. */
  function Apply(t: Table, name: string, desc: string): (r: Table)
    ensures Lookup(r, name) == (if desc == "" then None else Some(desc))
    ensures forall k :: k != name ==> Lookup(r, k) == Lookup(t, k)
  {
    if desc == "" then Remove(t, name) else Put(t, name, desc)
  }

  /** Longer filenames than this are followed by a tab instead of padding. */
  const TabAfter: nat := 28

  /** The column descriptions start at after a padded filename. */
  const DescColumn: nat := 30

  /** The line the writer emits for one pair, without its '\n' (index.php:147-151). */
  function Layout(p: Pair): string {
    if |p.name| > TabAfter then p.name + "\t" + p.desc else PadRight(p.name, DescColumn) + p.desc
  }

  /** What the writer emits for one pair: nothing for an empty description. */
  function Emit(p: Pair): string {
    if p.desc != "" then Layout(p) + "\n" else ""
  }

  /** The whole new DESCRIPT.ION for a table, in the table's order (index.php:143-153). */
  function Serialise(t: Table): string
    decreases |t|
  {
    if t == [] then "" else Serialise(t[..|t| - 1]) + Emit(t[|t| - 1])
  }

  /** The pairs the writer keeps: those with a non-empty description, in order. */
  function Kept(t: Table): (r: Table)
    decreases |t|
    ensures forall p :: p in r <==> p in t && p.desc != ""
  {
    if t == [] then []
    else Kept(t[..|t| - 1]) + (if t[|t| - 1].desc != "" then [t[|t| - 1]] else [])
  }

  /** The writer's second loop (index.php:143-153). */
  method Render(t: Table) returns (content: string)
    ensures content == Serialise(t)
  {
    content := "";
    for i := 0 to |t|
      invariant content == Serialise(t[..i])
    {
      SerialisePrefix(t, i);
      var p := t[i];
      if p.desc != "" {
        if |p.name| > 28 {
          content := content + (p.name + "\t" + p.desc + "\n");
        } else {
          content := content + (PadRight(p.name, 30) + p.desc + "\n");
        }
      }
    }
    assert t[..|t|] == t;
  }

  /** One more pair of the table adds what the writer emits for it. */
  lemma SerialisePrefix(t: Table, i: nat)
    requires i < |t|
    ensures Serialise(t[..i + 1]) == Serialise(t[..i]) + Emit(t[i])
  {
    assert t[..i + 1][..i] == t[..i];
  }

  /**
   * The layout: a name longer than 28 characters is followed by one tab; a shorter one
   * is padded with spaces so that the description starts in column 30.
   */
  lemma LayoutColumns(p: Pair)
    ensures Layout(p)[..|p.name|] == p.name
    ensures |p.name| > 28 ==> |Layout(p)| == |p.name| + 1 + |p.desc| && Layout(p)[|p.name|] == '\t'
    ensures |p.name| <= 28 ==> |Layout(p)| == 30 + |p.desc| && forall k :: |p.name| <= k < 30 ==> Layout(p)[k] == ' '
    ensures Layout(p)[|Layout(p)| - |p.desc|..] == p.desc
  {
  }

  function Layouts(t: Table): (r: seq<string>)
    ensures |r| == |t| && forall i :: 0 <= i < |t| ==> r[i] == Layout(t[i])
  {
    seq(|t|, i requires 0 <= i < |t| => Layout(t[i]))
  }

  /** No filename or description holds a line break. */
  ghost predicate SingleLine(t: Table) {
    forall i :: 0 <= i < |t| ==> '\n' !in t[i].name && '\n' !in t[i].desc
  }

  /** The written text is one '\n'-terminated line per pair with a non-empty description, and nothing else. */
  lemma {:induction false} SerialisedLines(t: Table)
    requires SingleLine(t)
    ensures Serialise(t) == [] || Serialise(t)[|Serialise(t)| - 1] == '\n'
    ensures Lines(Serialise(t)) == Layouts(Kept(t))
    decreases |t|
  {
    if t != [] {
      var u, p := t[..|t| - 1], t[|t| - 1];
      assert SingleLine(u) by {
        forall i | 0 <= i < |u| ensures '\n' !in u[i].name && '\n' !in u[i].desc { assert u[i] == t[i]; }
      }
      SerialisedLines(u);
      SerialiseStep(t);
    }
  }

  /** Emitting one more pair adds its laid-out line, or nothing when its description is empty. */
  lemma SerialiseStep(t: Table)
    requires t != [] && '\n' !in t[|t| - 1].name && '\n' !in t[|t| - 1].desc
    requires var u := t[..|t| - 1];
      && (Serialise(u) == [] || Serialise(u)[|Serialise(u)| - 1] == '\n')
      && Lines(Serialise(u)) == Layouts(Kept(u))
    ensures Serialise(t) == [] || Serialise(t)[|Serialise(t)| - 1] == '\n'
    ensures Lines(Serialise(t)) == Layouts(Kept(t))
  {
    var u, p := t[..|t| - 1], t[|t| - 1];
    var head, last := Serialise(u), Emit(p);
    assert Serialise(t) == head + last;
    EmitLines(p);
    LinesAppend(head, last);
    EndsAtLineBoundary(head, last);
    KeptLayoutsStep(t);
  }

  /** The lines for the kept pairs grow by the last pair's line exactly when its description is non-empty. */
  lemma KeptLayoutsStep(t: Table)
    requires t != []
    ensures Layouts(Kept(t)) == Layouts(Kept(t[..|t| - 1])) + if t[|t| - 1].desc != "" then [Layout(t[|t| - 1])] else []
  {
    var u, p := t[..|t| - 1], t[|t| - 1];
    if p.desc != "" {
      assert Kept(t) == Kept(u) + [p];
      LayoutsSnoc(Kept(u), p);
    } else {
      assert Kept(t) == Kept(u);
    }
  }

  lemma EndsAtLineBoundary(a: string, b: string)
    requires a == [] || a[|a| - 1] == '\n'
    requires b == [] || b[|b| - 1] == '\n'
    ensures a + b == [] || (a + b)[|a + b| - 1] == '\n'
  {
    if b == [] {
      assert a + b == a;
    }
  }

  /** One pair's output is one terminated line, or nothing. */
  lemma EmitLines(p: Pair)
    requires '\n' !in p.name && '\n' !in p.desc
    ensures Emit(p) == [] || Emit(p)[|Emit(p)| - 1] == '\n'
    ensures Lines(Emit(p)) == if p.desc != "" then [Layout(p)] else []
  {
    if p.desc != "" {
      LayoutIsOneLine(p);
      LinesOfTerminatedLine(Layout(p), "");
      assert Layout(p) + "\n" + "" == Emit(p);
    }
  }

  lemma LayoutsSnoc(t: Table, p: Pair)
    ensures Layouts(t + [p]) == Layouts(t) + [Layout(p)]
  {
  }

  lemma LayoutIsOneLine(p: Pair)
    requires '\n' !in p.name && '\n' !in p.desc
    ensures '\n' !in Layout(p)
  {
    var line := Layout(p);
    LayoutColumns(p);
    forall k | 0 <= k < |line| ensures line[k] != '\n' {
      if k < |p.name| {
        assert line[k] == line[..|p.name|][k];
      } else if k >= |line| - |p.desc| {
        assert line[k] == line[|line| - |p.desc|..][k - (|line| - |p.desc|)];
      }
    }
  }

  /** A character trim() or `\s` would treat as white space. */
  predicate Blank(c: char) {
    IsTrimChar(c) || IsSpace(c)
  }

  /**
   * A filename the layout reads back unchanged: non-empty, no white space at either end,
   * not starting with `#`, no line break, and no tab or run of two white-space characters.
   */
  predicate ReadableName(n: string) {
    && n != [] && !Blank(n[0]) && !Blank(n[|n| - 1]) && n[0] != '#' && '\n' !in n
    && forall j :: 0 <= j < |n| ==> !SeparatorAt(n, j)
  }

  /** A description the layout reads back unchanged: non-empty, single-line, no white space at either end. */
  predicate ReadableDesc(d: string) {
    d != [] && !Blank(d[0]) && !Blank(d[|d| - 1]) && '\n' !in d
  }

  /** The update reader gets back exactly the pair the writer laid out. */
  lemma LayoutReadsBack(p: Pair)
    requires ReadableName(p.name) && ReadableDesc(p.desc)
    ensures UpdateEntry(Layout(p)) == Some((p.name, p.desc))
  {
    if |p.name| > TabAfter {
      JoinedLineReads(p.name, "\t", p.desc);
    } else {
      var sep := Spaces(DescColumn - |p.name|);
      assert PadRight(p.name, DescColumn) == p.name + sep;
      JoinedLineReads(p.name, sep, p.desc);
    }
  }

  /** A readable name and description joined by a tab or a run of spaces are one entry. */
  lemma JoinedLineReads(name: string, sep: string, desc: string)
    requires ReadableName(name) && ReadableDesc(desc)
    requires sep == "\t" || (|sep| >= 2 && forall k :: 0 <= k < |sep| ==> sep[k] == ' ')
    ensures UpdateEntry(name + sep + desc) == Some((name, desc))
  {
    var line := name + sep + desc;
    assert line[0] == name[0] && line[|line| - 1] == desc[|desc| - 1];
    TrimKeeps(line);
    SplitFieldsOfJoined(name, sep, desc);
    TrimKeeps(name);
    TrimKeeps(desc);
  }

  /**
   * A file of a blank line, a `#` comment, a name and a description four spaces apart,
   * and a name and a description a tab apart holds exactly the last two pairs.
   */
  lemma BlankAndCommentLinesAddNothing(blank: string, comment: string, n1: string, d1: string, n2: string, d2: string)
    requires Trim(blank) == "" && Trim(comment) != "" && Trim(comment)[0] == '#'
    requires ReadableName(n1) && ReadableDesc(d1) && ReadableName(n2) && ReadableDesc(d2) && n1 != n2
    ensures Read([blank, comment, n1 + "    " + d1, n2 + "\t" + d2], false) == [Pair(n1, d1), Pair(n2, d2)]
  {
    JoinedLineReads(n1, "    ", d1);
    JoinedLineReads(n2, "\t", d2);
    TwoEntriesAfterIgnored(blank, comment, n1 + "    " + d1, n2 + "\t" + d2, false, Pair(n1, d1), Pair(n2, d2));
  }

  /**
   * The same file on the page: with filenames that hold one dot, before a known
   * extension, and descriptions without a dot, the display loader's extension pattern
   * reads the four-space line and the tab line as the same two pairs the update reader
   * gets, and the blank and comment lines add nothing.
   */
  lemma DisplayBlankAndCommentLinesAddNothing(blank: string, comment: string,
                                              b1: string, e1: string, d1: string,
                                              b2: string, e2: string, d2: string)
    requires Trim(blank) == "" && Trim(comment) != "" && Trim(comment)[0] == '#'
    requires b1 != [] && '.' !in b1 && '.' !in d1 && Listed(Lower(e1), DisplayExtensions)
    requires b2 != [] && '.' !in b2 && '.' !in d2 && Listed(Lower(e2), DisplayExtensions)
    requires ReadableName(b1 + "." + e1) && ReadableDesc(d1) && ReadableName(b2 + "." + e2) && ReadableDesc(d2)
    requires b1 + "." + e1 != b2 + "." + e2
    ensures var n1, n2 := b1 + "." + e1, b2 + "." + e2;
      && Read([blank, comment, n1 + "    " + d1, n2 + "\t" + d2], true) == [Pair(n1, d1), Pair(n2, d2)]
      && Read([blank, comment, n1 + "    " + d1, n2 + "\t" + d2], false) == [Pair(n1, d1), Pair(n2, d2)]
  {
    var n1, n2 := b1 + "." + e1, b2 + "." + e2;
    DisplayLineReads(b1, e1, "    ", d1);
    DisplayLineReads(b2, e2, "\t", d2);
    TwoEntriesAfterIgnored(blank, comment, n1 + "    " + d1, n2 + "\t" + d2, true, Pair(n1, d1), Pair(n2, d2));
    BlankAndCommentLinesAddNothing(blank, comment, n1, d1, n2, d2);
  }

  /** A one-dot filename ending in a known extension, white space and a description without a dot are one entry on the page. */
  lemma DisplayLineReads(base: string, ext: string, sep: string, desc: string)
    requires base != [] && '.' !in base && '.' !in desc
    requires Listed(Lower(ext), DisplayExtensions)
    requires sep != [] && forall k :: 0 <= k < |sep| ==> IsSpace(sep[k])
    requires ReadableName(base + "." + ext) && ReadableDesc(desc)
    ensures DisplayEntry(base + "." + ext + sep + desc) == Some((base + "." + ext, desc))
  {
    var name := base + "." + ext;
    var line := name + sep + desc;
    TrimKeeps(name);
    TrimKeeps(desc);
    assert line[0] == name[0] && line[|line| - 1] == desc[|desc| - 1];
    TrimKeeps(line);
    ExtensionMatchOneDot(base, ext, sep, desc);
  }

  /** Whatever the reader, a blank line and a comment give nothing, and two lines naming different files give their pairs in order. */
  lemma TwoEntriesAfterIgnored(blank: string, comment: string, l1: string, l2: string, display: bool, q1: Pair, q2: Pair)
    requires Trim(blank) == "" && Trim(comment) != "" && Trim(comment)[0] == '#'
    requires (if display then DisplayEntry(l1) else UpdateEntry(l1)) == Some((q1.name, q1.desc))
    requires (if display then DisplayEntry(l2) else UpdateEntry(l2)) == Some((q2.name, q2.desc))
    requires q1.name != q2.name
    ensures Read([blank, comment, l1, l2], display) == [q1, q2]
  {
    var ab := [blank, comment];
    IgnoredLines(blank, comment, display);
    ReadSnoc(ab, l1, display, q1);
    ReadSnoc(ab + [l1], l2, display, q2);
    FourLines(blank, comment, l1, l2);
    SecondNameAppends(q1, q2);
  }

  lemma FourLines(blank: string, comment: string, l1: string, l2: string)
    ensures [blank, comment] + [l1] + [l2] == [blank, comment, l1, l2]
  {
  }

  /** A blank line and a comment give no pair to either reader. */
  lemma IgnoredLines(blank: string, comment: string, display: bool)
    requires Trim(blank) == "" && Trim(comment) != "" && Trim(comment)[0] == '#'
    ensures Read([blank, comment], display) == []
  {
    assert [blank, comment][..1] == [blank] && [blank][..0] == [];
    assert DisplayEntry(blank) == None && UpdateEntry(blank) == None;
    assert DisplayEntry(comment) == None && UpdateEntry(comment) == None;
    assert Read([blank], display) == [];
  }

  /** A line that carries a pair puts it into what the lines before it give. */
  lemma ReadSnoc(lines: seq<string>, line: string, display: bool, q: Pair)
    requires (if display then DisplayEntry(line) else UpdateEntry(line)) == Some((q.name, q.desc))
    ensures Read(lines + [line], display) == Put(Read(lines, display), q.name, q.desc)
  {
    assert (lines + [line])[..|lines|] == lines;
  }

  /** Into an empty table the first pair goes alone, and a second filename is appended behind it. */
  lemma SecondNameAppends(q1: Pair, q2: Pair)
    requires q1.name != q2.name
    ensures Put(Put([], q1.name, q1.desc), q2.name, q2.desc) == [q1, q2]
  {
    assert Put([], q1.name, q1.desc) == [q1];
    assert Names([q1]) == [q1.name];
  }

  /** A last line that carries a pair is put into what the lines before it give. */
  lemma LastLinePut(lines: seq<string>, q: Pair)
    requires lines != [] && UpdateEntry(lines[|lines| - 1]) == Some((q.name, q.desc))
    ensures Read(lines, false) == Put(Read(lines[..|lines| - 1], false), q.name, q.desc)
  {
  }

  /** Every pair can be written and read back, and no filename is repeated. */
  ghost predicate Writable(t: Table) {
    && UniqueKeys(t)
    && forall p :: p in t ==> ReadableName(p.name) && (p.desc == "" || ReadableDesc(p.desc))
  }

  lemma {:induction false} KeptIsWritable(t: Table)
    requires Writable(t)
    ensures Writable(Kept(t))
    decreases |t|
  {
    if t != [] {
      var u, p := t[..|t| - 1], t[|t| - 1];
      assert Writable(u);
      KeptIsWritable(u);
      if p.desc != "" {
        var r := Kept(t);
        assert r == Kept(u) + [p];
        forall i | 0 <= i < |Kept(u)| ensures Kept(u)[i].name != p.name {
          assert Kept(u)[i] in u;
        }
      }
    }
  }

  /** A filename that no pair carries is not a key. */
  lemma AbsentName(t: Table, k: string)
    requires forall i :: 0 <= i < |t| ==> t[i].name != k
    ensures k !in Names(t)
  {
    forall i | 0 <= i < |t| ensures Names(t)[i] != k {
      NamesAt(t, i);
    }
  }

  /** Reading the lines laid out for a writable table of non-empty descriptions gives the table back. */
  lemma {:induction false} ReadLayouts(t: Table)
    requires Writable(t) && forall p :: p in t ==> p.desc != ""
    ensures Read(Layouts(t), false) == t
    decreases |t|
  {
    if t != [] {
      var n := |t| - 1;
      var u, p := t[..n], t[n];
      var lines := Layouts(t);
      assert lines[..n] == Layouts(u);
      WritablePrefix(t);
      ReadLayouts(u);
      LayoutReadsBack(p);
      LastLinePut(lines, p);
    }
  }

  /**
   * Dropping the last pair keeps a table writable, that pair's name occurs nowhere before
   * it, and putting the pair back after the rest rebuilds the table.
   */
  lemma WritablePrefix(t: Table)
    requires Writable(t) && t != []
    ensures var u, p := t[..|t| - 1], t[|t| - 1];
      && Writable(u) && (forall q :: q in u ==> q in t)
      && p.name !in Names(u) && Put(u, p.name, p.desc) == t
  {
    var u, p := t[..|t| - 1], t[|t| - 1];
    assert t == u + [p];
    AbsentName(u, p.name);
  }

  /**
   * Round trip: reading back what the writer emits gives the same table, in the same
   * order, less the pairs whose description was empty (the writer skips those).
   */
  lemma RoundTrip(t: Table)
    requires Writable(t)
    ensures Read(Lines(Serialise(t)), false) == Kept(t)
  {
    SerialisedLines(t);
    KeptIsWritable(t);
    ReadLayouts(Kept(t));
  }

  /** The writer drops exactly the pairs whose description is empty. */
  lemma KeptLookup(t: Table, k: string)
    requires Writable(t)
    ensures Lookup(Kept(t), k) == (if Lookup(t, k) == Some("") then None else Lookup(t, k))
  {
    KeptIsWritable(t);
    var r := Lookup(Kept(t), k);
    if r.Some? {
      MemberLookup(t, Pair(k, r.value));
    }
    var l := Lookup(t, k);
    if l.Some? && l.value != "" {
      assert Pair(k, l.value) in Kept(t);
      MemberLookup(Kept(t), Pair(k, l.value));
    }
  }

  /** An edit with a writable filename and description keeps the table writable. */
  lemma ApplyIsWritable(t: Table, name: string, desc: string)
    requires Writable(t) && ReadableName(name) && (desc == "" || ReadableDesc(desc))
    ensures Writable(Apply(t, name, desc))
  {
    if desc == "" {
      RemoveKeepsKeysUnique(t, name);
    } else {
      PutKeepsKeysUnique(t, name, desc);
    }
  }

  /**
   * An edit followed by a reload: the edited filename now has the new description, or
   * none when it was cleared, and every other filename keeps what it had, except that
   * empty descriptions are not written.
   */
  lemma EditIsReadBack(t: Table, name: string, desc: string)
    requires Writable(t) && ReadableName(name) && (desc == "" || ReadableDesc(desc))
    ensures var back := Read(Lines(Serialise(Apply(t, name, desc))), false);
      && Lookup(back, name) == (if desc == "" then None else Some(desc))
      && forall k :: k != name ==> Lookup(back, k) == Lookup(Kept(t), k)
  {
    var a := Apply(t, name, desc);
    ApplyIsWritable(t, name, desc);
    RoundTrip(a);
    KeptLookup(a, name);
    forall k | k != name ensures Lookup(Kept(a), k) == Lookup(Kept(t), k) {
      KeptLookup(a, k);
      KeptLookup(t, k);
    }
  }

  /**
   * The two readers disagree: when a description holds a known extension followed by
   * white space and more text, the display pattern's greedy group takes the filename to
   * run up to that extension, so the display loader does not read back the pair the
   * writer laid out, although the update reader does (LayoutReadsBack).
   */
  lemma DisplayMisreadsDottedDescription(p: Pair, d1: string, ext: string, c: char, d2: string)
    requires ReadableName(p.name) && ReadableDesc(p.desc)
    requires p.desc == d1 + "." + ext + [c] + d2
    requires Listed(Lower(ext), DisplayExtensions) && IsSpace(c) && d2 != []
    ensures ExtensionMatch(Layout(p)).Some? && |ExtensionMatch(Layout(p)).value.0| > |p.name|
    ensures DisplayEntry(Layout(p)) != Some((p.name, p.desc))
  {
    var s := Layout(p);
    GreedyGroupOvershoots(p, d1, ext, c, d2);
    LayoutColumns(p);
    assert s[0] == p.name[0] && s[|s| - 1] == p.desc[|p.desc| - 1];
    TrimKeeps(s);
    MatchedNameIsTrimmed(s);
    DisplayTakesMatchedName(s);
  }

  /** When the display pattern matches a trimmed, non-comment line, the filename shown is its group 1. */
  lemma DisplayTakesMatchedName(s: string)
    requires Trim(s) == s && !Ignored(s) && ExtensionMatch(s).Some?
    requires Trim(ExtensionMatch(s).value.0) == ExtensionMatch(s).value.0
    ensures DisplayEntry(s).Some? && DisplayEntry(s).value.0 == ExtensionMatch(s).value.0
  {
  }

  lemma GreedyGroupOvershoots(p: Pair, d1: string, ext: string, c: char, d2: string)
    requires p.desc == d1 + "." + ext + [c] + d2
    requires Listed(Lower(ext), DisplayExtensions) && IsSpace(c) && d2 != []
    ensures ExtensionMatch(Layout(p)).Some? && |ExtensionMatch(Layout(p)).value.0| > |p.name|
  {
    var s := Layout(p);
    LayoutColumns(p);
    var off := |s| - |p.desc|;
    assert off > |p.name|;
    DescriptionCandidate(s, off, d1, ext, c, d2);
    ExtensionMatchIsLongest(s);
  }

  /** A listed extension between a dot and a space inside the description lets group 1 end there. */
  lemma DescriptionCandidate(s: string, off: nat, d1: string, ext: string, c: char, d2: string)
    requires 1 <= off <= |s| && s[off..] == d1 + "." + ext + [c] + d2
    requires Listed(Lower(ext), DisplayExtensions) && IsSpace(c) && d2 != []
    ensures Candidate(s, DisplayExtensions, off + |d1| + 1 + |ext|)
  {
    var t := s[off..];
    var dot := off + |d1|;
    var e := dot + 1 + |ext|;
    assert t[|d1|] == '.' && t[|d1| + 1..|d1| + 1 + |ext|] == ext && t[|d1| + 1 + |ext|] == c;
    assert s[dot + 1..e] == t[|d1| + 1..|d1| + 1 + |ext|];
    assert CandidateAt(s, DisplayExtensions, dot, e);
  }

  /** The display pattern's group 1 starts with the line's first character and ends in an extension character or a dot. */
  lemma MatchedNameIsTrimmed(s: string)
    requires ExtensionMatch(s).Some? && !IsTrimChar(s[0])
    ensures Trim(ExtensionMatch(s).value.0) == ExtensionMatch(s).value.0
  {
    var exts := DisplayExtensions;
    ExtensionMatchIsLongest(s);
    var name := ExtensionMatch(s).value.0;
    var d: nat :| CandidateAt(s, exts, d, |name|);
    DisplayExtensionsAreWords();
    CandidatePrefixTrimmed(s, exts, d, |name|);
  }
}
