/**
 * The two ways index.php splits one trimmed DESCRIPT.ION line into a filename and a
 * description, written as scanners instead of regular expressions:
 *  - SplitFields is preg_split('/\s{2,}|\t/', $line, 2) (index.php:128 and 189);
 *  - ExtensionMatch is the case-insensitive pattern
 *    /^(.+\.(jpg|jpeg|...|md))\s+(.+)$/ of the display path (index.php:182-187).
 * Lines never hold '\n' (Text.Lines splits there), so `.` matches every character.
 */
module SidecarGrammar {
  import opened Wrappers
  import opened Text

  /** The pattern \s{2,}|\t matches at index i of s. */
  predicate SeparatorAt(s: string, i: nat) {
    i < |s| && (s[i] == '\t' || (i + 1 < |s| && IsSpace(s[i]) && IsSpace(s[i + 1])))
  }

  /** The length of the run of \s characters that starts at index i. */
  function SpaceRun(s: string, i: nat): (n: nat)
    requires i <= |s|
    decreases |s| - i
    ensures i + n <= |s|
    ensures forall k :: i <= k < i + n ==> IsSpace(s[k])
    ensures i + n == |s| || !IsSpace(s[i + n])
  {
    if i < |s| && IsSpace(s[i]) then 1 + SpaceRun(s, i + 1) else 0
  }

  /** What the pattern consumes at a match: the greedy \s{2,} is tried first, else the single tab. */
  function SeparatorLength(s: string, i: nat): (n: nat)
    requires SeparatorAt(s, i)
    ensures 1 <= n && i + n <= |s|
    ensures forall k :: i <= k < i + n ==> IsSpace(s[k])
    ensures i + n == |s| || !IsSpace(s[i + n]) || (n == 1 && s[i] == '\t')
  {
    if i + 1 < |s| && IsSpace(s[i]) && IsSpace(s[i + 1]) then SpaceRun(s, i) else 1
  }

  /** The leftmost match of the separator at or after from. */
  function FirstSeparator(s: string, from: nat): (r: Option<nat>)
    decreases |s| - from
    ensures r.Some? ==> from <= r.value && SeparatorAt(s, r.value)
    ensures r.Some? ==> forall j :: from <= j < r.value ==> !SeparatorAt(s, j)
    ensures r.None? ==> forall j :: from <= j ==> !SeparatorAt(s, j)
  {
    if from >= |s| then None
    else if SeparatorAt(s, from) then Some(from)
    else FirstSeparator(s, from + 1)
  }

  /**
   * preg_split('/\s{2,}|\t/', $s, 2) when it yields two parts: the text before the
   * leftmost separator and everything after it. None when the pattern never matches.
   */
  function SplitFields(s: string): (r: Option<(string, string)>)
    ensures r.None? <==> forall j :: 0 <= j < |s| ==> !SeparatorAt(s, j)
    ensures r.Some? ==> var i := |r.value.0|;
      && SeparatorAt(s, i)
      && s[..i] == r.value.0
      && (forall j :: 0 <= j < i ==> !SeparatorAt(s, j))
      && r.value.1 == s[i + SeparatorLength(s, i)..]
  {
    match FirstSeparator(s, 0)
    case None => None
    case Some(i) => Some((s[..i], s[i + SeparatorLength(s, i)..]))
  }

  /** A filename, a separator of a tab or of two or more spaces, and a description split back apart. */
  lemma SplitFieldsOfJoined(name: string, sep: string, desc: string)
    requires forall j :: 0 <= j < |name| ==> !SeparatorAt(name, j)
    requires name != [] && !IsSpace(name[|name| - 1])
    requires sep == "\t" || (|sep| >= 2 && forall k :: 0 <= k < |sep| ==> sep[k] == ' ')
    requires desc != [] && !IsSpace(desc[0])
    ensures SplitFields(name + sep + desc) == Some((name, desc))
  {
    var s := name + sep + desc;
    var n := |name|;
    forall j | 0 <= j < n ensures !SeparatorAt(s, j) {
      assert s[j] == name[j];
      if j + 1 < n { assert s[j + 1] == name[j + 1]; assert !SeparatorAt(name, j); }
    }
    assert s[n] == sep[0];
    assert SeparatorAt(s, n);
    assert FirstSeparator(s, 0) == Some(n);
    assert s[..n] == name;
    if sep == "\t" {
      assert s[n + 1] == desc[0];
      assert SeparatorLength(s, n) == 1;
    } else {
      assert s[n + 1] == sep[1];
      forall k | n <= k < n + |sep| ensures IsSpace(s[k]) { assert s[k] == sep[k - n]; }
      assert s[n + |sep|] == desc[0];
      SpaceRunSpan(s, n, |sep|);
      assert SeparatorLength(s, n) == |sep|;
    }
    assert s[n + |sep|..] == desc;
  }

  /** A run of \s characters that ends before a non-\s character is what SpaceRun measures. */
  lemma {:induction false} SpaceRunSpan(s: string, i: nat, n: nat)
    requires i + n < |s|
    requires forall k :: i <= k < i + n ==> IsSpace(s[k])
    requires !IsSpace(s[i + n])
    ensures SpaceRun(s, i) == n
    decreases n
  {
    if n > 0 { SpaceRunSpan(s, i + 1, n - 1); }
  }

  /** The alternatives of the extension group, in the order the pattern lists them. */
  const DisplayExtensions: seq<string> := [
    "jpg", "jpeg", "png", "gif", "bmp", "webp", "pdf", "doc", "docx", "txt",
    "mp3", "mp4", "avi", "zip", "rar", "php", "js", "css", "html", "swf",
    "exe", "com", "bat", "cmd", "svg", "ico", "flac", "wav", "mov", "mkv",
    "7z", "tar", "gz", "xml", "json", "sql", "log", "md"]

  predicate IsExtensionChar(c: char) {
    'a' <= c <= 'z' || '0' <= c <= '9'
  }

  predicate IsExtensionWord(x: string) {
    forall k :: 0 <= k < |x| ==> IsExtensionChar(x[k])
  }

  /** w is one of the words xs lists. */
  predicate Listed(w: string, xs: seq<string>) {
    xs != [] && (xs[0] == w || Listed(w, xs[1..]))
  }

  /** Every listed word is made of extension characters. */
  ghost predicate AllExtensionWords(xs: seq<string>) {
    forall i :: 0 <= i < |xs| ==> IsExtensionWord(xs[i])
  }

  lemma ExtensionWordAt(i: nat)
    requires i < |DisplayExtensions|
    ensures IsExtensionWord(DisplayExtensions[i])
  {
  }

  /** The pattern's alternatives are lower-case letters and digits: no dot, no white space. */
  lemma DisplayExtensionsAreWords()
    ensures AllExtensionWords(DisplayExtensions)
  {
    forall i | 0 <= i < |DisplayExtensions| ensures IsExtensionWord(DisplayExtensions[i]) {
      ExtensionWordAt(i);
    }
  }

  /** Each word of xs is listed in xs. */
  lemma {:induction false} ListedIndex(xs: seq<string>, i: nat)
    requires i < |xs|
    ensures Listed(xs[i], xs)
  {
    if i > 0 {
      assert xs[1..][i - 1] == xs[i];
      ListedIndex(xs[1..], i - 1);
    }
  }

  lemma {:induction false} ListedWord(w: string, xs: seq<string>)
    requires AllExtensionWords(xs) && Listed(w, xs)
    ensures IsExtensionWord(w)
  {
    if xs[0] != w {
      assert AllExtensionWords(xs[1..]) by {
        forall i | 0 <= i < |xs| - 1 ensures IsExtensionWord(xs[1..][i]) { assert xs[1..][i] == xs[i + 1]; }
      }
      ListedWord(w, xs[1..]);
    }
  }

  /** `\s+(.+)$` can follow a group 1 that ends at index e: a \s character, then at least one more. */
  predicate TailFollows(s: string, e: nat) {
    e + 1 < |s| && IsSpace(s[e])
  }

  /** `^(.+\.(ext))` can end at e with its dot at index dot, and the rest of the pattern can follow. */
  ghost predicate CandidateAt(s: string, exts: seq<string>, dot: nat, e: nat) {
    1 <= dot < e <= |s| && s[dot] == '.' && Listed(Lower(s[dot + 1..e]), exts) && TailFollows(s, e)
  }

  /** Some match of the pattern gives group 1 the length e. */
  ghost predicate Candidate(s: string, exts: seq<string>, e: nat) {
    exists dot: nat :: CandidateAt(s, exts, dot, e)
  }

  /** The alternatives exts, tried in order after the dot at index dot: the end of the first that matches. */
  function ExtensionEnd(s: string, dot: nat, exts: seq<string>): (r: Option<nat>)
    requires dot < |s|
    ensures r.Some? ==> dot < r.value <= |s| && Listed(Lower(s[dot + 1..r.value]), exts) && TailFollows(s, r.value)
    ensures r.None? ==> forall e :: dot < e <= |s| && TailFollows(s, e) ==> !Listed(Lower(s[dot + 1..e]), exts)
  {
    if exts == [] then None
    else
      var e := dot + 1 + |exts[0]|;
      if e <= |s| && Lower(s[dot + 1..e]) == exts[0] && TailFollows(s, e) then Some(e)
      else ExtensionEnd(s, dot, exts[1..])
  }

  /** Backtracking of the greedy `.+`: dot positions are tried from the right, down to index 1. */
  function ScanDots(s: string, exts: seq<string>, dot: nat): (r: Option<(nat, nat)>)
    requires dot < |s|
    ensures r.Some? ==> r.value.0 <= dot && CandidateAt(s, exts, r.value.0, r.value.1)
  {
    if dot == 0 then None
    else
      var end := ExtensionEnd(s, dot, exts);
      if s[dot] == '.' && end.Some? then Some((dot, end.value))
      else ScanDots(s, exts, dot - 1)
  }

  /** No dot position that the scan passed over can start a match. */
  lemma {:induction false} ScanDotsSkipsNoMatch(s: string, exts: seq<string>, dot: nat)
    requires dot < |s|
    ensures ScanDots(s, exts, dot).Some? ==>
      forall d: nat, e: nat :: ScanDots(s, exts, dot).value.0 < d <= dot ==> !CandidateAt(s, exts, d, e)
    ensures ScanDots(s, exts, dot).None? ==> forall d: nat, e: nat :: d <= dot ==> !CandidateAt(s, exts, d, e)
  {
    if dot > 0 {
      var end := ExtensionEnd(s, dot, exts);
      if !(s[dot] == '.' && end.Some?) {
        var r := ScanDots(s, exts, dot - 1);
        assert ScanDots(s, exts, dot) == r;
        NoCandidateAt(s, exts, dot);
        ScanDotsSkipsNoMatch(s, exts, dot - 1);
        var lo := if r.Some? then r.value.0 else 0;
        forall d: nat, e: nat | lo < d <= dot ensures !CandidateAt(s, exts, d, e) {
          if d < dot {
            assert !CandidateAt(s, exts, d, e);
          }
        }
      }
    }
  }

  /** A position the scan passes over starts no match: it is no dot, or no alternative fits after it. */
  lemma NoCandidateAt(s: string, exts: seq<string>, dot: nat)
    requires dot < |s| && !(s[dot] == '.' && ExtensionEnd(s, dot, exts).Some?)
    ensures forall e: nat :: !CandidateAt(s, exts, dot, e)
  {
  }

  /** Two alternatives cannot both match after the same dot: the shorter would end on a \s character. */
  lemma OneEndPerDot(s: string, exts: seq<string>, dot: nat, e1: nat, e2: nat)
    requires AllExtensionWords(exts)
    requires CandidateAt(s, exts, dot, e1) && CandidateAt(s, exts, dot, e2)
    ensures e1 == e2
  {
    if e1 < e2 {
      WordHasNoSpace(s, exts, dot, e1, e2);
    } else if e2 < e1 {
      WordHasNoSpace(s, exts, dot, e2, e1);
    }
  }

  lemma WordHasNoSpace(s: string, exts: seq<string>, dot: nat, m: nat, e: nat)
    requires AllExtensionWords(exts)
    requires dot < m < e <= |s|
    requires Listed(Lower(s[dot + 1..e]), exts)
    ensures !IsSpace(s[m]) && s[m] != '.' && IsExtensionChar(LowerChar(s[m]))
  {
    var x := Lower(s[dot + 1..e]);
    ListedWord(x, exts);
    var j := m - dot - 1;
    assert s[dot + 1..e][j] == s[m];
    assert x[j] == LowerChar(s[m]);
    assert IsExtensionChar(x[j]);
  }

  /** Group 1 ends in the dot or in a letter or digit of the extension, never in a character trim() strips. */
  lemma CandidateEndsInWord(s: string, exts: seq<string>, dot: nat, e: nat)
    requires AllExtensionWords(exts) && CandidateAt(s, exts, dot, e)
    ensures !IsTrimChar(s[e - 1])
  {
    if dot < e - 1 {
      WordHasNoSpace(s, exts, dot, e - 1, e);
    }
  }

  /** On a line that starts with a character trim() keeps, group 1 is left alone by trim(). */
  lemma CandidatePrefixTrimmed(s: string, exts: seq<string>, dot: nat, e: nat)
    requires AllExtensionWords(exts) && CandidateAt(s, exts, dot, e) && !IsTrimChar(s[0])
    ensures Trim(s[..e]) == s[..e]
  {
    CandidateEndsInWord(s, exts, dot, e);
    var name := s[..e];
    assert name[0] == s[0] && name[e - 1] == s[e - 1];
    TrimKeeps(name);
  }

  /**
   * The display pattern on a trimmed line: group 1 (the filename) and group 3 (the
   * description), or None when the pattern does not match. The greedy `\s+` gives back
   * one character only when the white space runs to the end of the line.
   */
  function ExtensionMatch(s: string): (r: Option<(string, string)>)
  {
    if s == [] then None
    else match ScanDots(s, DisplayExtensions, |s| - 1)
      case None => None
      case Some((dot, e)) =>
        var k := if e + SpaceRun(s, e) < |s| then SpaceRun(s, e) else |s| - 1 - e;
        Some((s[..e], s[e + k..]))
  }

  /**
   * The greedy group 1 is the LONGEST prefix that ends in `.<known extension>` and is
   * followed by white space and at least one more character; the description is what
   * follows that white space. No match exactly when no such prefix exists.
   */
  lemma ExtensionMatchIsLongest(s: string)
    ensures ExtensionMatch(s).None? <==> forall e: nat :: !Candidate(s, DisplayExtensions, e)
    ensures ExtensionMatch(s).Some? ==>
      var (name, desc) := ExtensionMatch(s).value;
      && name == s[..|name|]
      && Candidate(s, DisplayExtensions, |name|)
      && (forall e: nat :: Candidate(s, DisplayExtensions, e) ==> e <= |name|)
      && |name| < |s| - |desc| && desc == s[|s| - |desc|..] && desc != []
      && (forall k :: |name| <= k < |s| - |desc| ==> IsSpace(s[k]))
      && (!IsSpace(desc[0]) || |desc| == 1)
  {
    if s != [] {
      DisplayExtensionsAreWords();
      ScanFindsLongest(s, DisplayExtensions);
    }
  }

  /** Scanning from the last character finds the candidate with the rightmost end, or none when there is none. */
  lemma ScanFindsLongest(s: string, exts: seq<string>)
    requires s != [] && AllExtensionWords(exts)
    ensures ScanDots(s, exts, |s| - 1).None? <==> forall e: nat :: !Candidate(s, exts, e)
    ensures ScanDots(s, exts, |s| - 1).Some? ==>
      var (dot, e) := ScanDots(s, exts, |s| - 1).value;
      Candidate(s, exts, e) && forall e': nat :: Candidate(s, exts, e') ==> e' <= e
  {
    ScanDotsSkipsNoMatch(s, exts, |s| - 1);
    match ScanDots(s, exts, |s| - 1)
    case None =>
      forall e: nat ensures !Candidate(s, exts, e) { }
    case Some((dot, e)) =>
      assert Candidate(s, exts, e);
      forall e': nat | Candidate(s, exts, e') ensures e' <= e {
        var d: nat :| CandidateAt(s, exts, d, e');
        if d == dot {
          OneEndPerDot(s, exts, dot, e, e');
        } else if d < dot && e' > e {
          WordHasNoSpace(s, exts, d, dot, e');
        }
      }
  }

  /**
   * On a line with a single dot, the one before a known extension, the display pattern
   * takes the filename up to the extension and the description after the white space.
   */
  lemma ExtensionMatchOneDot(base: string, ext: string, sep: string, desc: string)
    requires base != [] && '.' !in base && '.' !in desc
    requires Listed(Lower(ext), DisplayExtensions)
    requires sep != [] && forall k :: 0 <= k < |sep| ==> IsSpace(sep[k])
    requires desc != [] && !IsSpace(desc[0])
    ensures ExtensionMatch(base + "." + ext + sep + desc) == Some((base + "." + ext, desc))
  {
    var exts := DisplayExtensions;
    var s := base + "." + ext + sep + desc;
    var n := |base| + 1 + |ext|;
    var start := n + |sep|;
    OneDotLayout(base, ext, sep, desc);
    assert CandidateAt(s, exts, |base|, n);
    assert Candidate(s, exts, n);
    DisplayExtensionsAreWords();
    ListedWord(Lower(ext), exts);
    OnlyDot(base, ext, sep, desc);
    ExtensionMatchIsLongest(s);
    var (name, rest) := ExtensionMatch(s).value;
    var dot: nat :| CandidateAt(s, exts, dot, |name|);
    OneEndPerDot(s, exts, dot, n, |name|);
    DescriptionAfterSpaces(s, n, start, rest);
  }

  /** Where the parts of a one-dot line sit. */
  lemma OneDotLayout(base: string, ext: string, sep: string, desc: string)
    requires sep != []
    ensures var s, n := base + "." + ext + sep + desc, |base| + 1 + |ext|;
      && |s| == n + |sep| + |desc| && s[|base|] == '.' && s[|base| + 1..n] == ext
      && s[..n] == base + "." + ext && s[n] == sep[0]
      && (forall k :: n <= k < n + |sep| ==> s[k] == sep[k - n])
      && s[n + |sep|..] == desc
  {
    var s, n := base + "." + ext + sep + desc, |base| + 1 + |ext|;
    assert s == (base + "." + ext) + sep + desc;
  }

  /**
   * When the text from n to start is white space and the character at start is not, a
   * description that follows a run of white space after n starts at start.
   */
  lemma DescriptionAfterSpaces(s: string, n: nat, start: nat, rest: string)
    requires n <= start < |s| && !IsSpace(s[start])
    requires forall k :: n <= k < start ==> IsSpace(s[k])
    requires n < |s| - |rest| && rest == s[|s| - |rest|..] && rest != []
    requires forall k :: n <= k < |s| - |rest| ==> IsSpace(s[k])
    requires !IsSpace(rest[0]) || |rest| == 1
    ensures rest == s[start..]
  {
    var m := |s| - |rest|;
    assert rest[0] == s[m];
  }

  lemma OnlyDot(base: string, ext: string, sep: string, desc: string)
    requires '.' !in base && '.' !in desc
    requires IsExtensionWord(Lower(ext))
    requires forall k :: 0 <= k < |sep| ==> IsSpace(sep[k])
    ensures var s := base + "." + ext + sep + desc;
      forall k :: 0 <= k < |s| && k != |base| ==> s[k] != '.'
  {
    var s := base + "." + ext + sep + desc;
    var n := |base| + 1 + |ext|;
    var start := n + |sep|;
    forall k | 0 <= k < |s| && k != |base| ensures s[k] != '.' {
      if k < |base| {
        assert s[k] == base[k];
      } else if k < n {
        assert Lower(ext)[k - |base| - 1] == LowerChar(ext[k - |base| - 1]);
        assert s[k] == ext[k - |base| - 1];
      } else if k < start {
        assert s[k] == sep[k - n];
      } else {
        assert s[k] == desc[k - start];
      }
    }
  }
}
