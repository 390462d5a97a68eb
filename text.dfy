/**
 * The PHP string primitives index.php relies on, restated over `string`.
 * One character stands for one byte of a PHP string; case rules are ASCII,
 * as in strtolower, strtoupper, stripos and strcasecmp since PHP 8.2.
 */
module Text {
  import opened Wrappers

  /** The characters trim() strips by default: space, \t, \n, \r, \0 and \x0B. */
  predicate IsTrimChar(c: char) {
    c == ' ' || c == '\t' || c == '\n' || c == '\r' || c == '\0' || c == '\U{000B}'
  }

  /** The characters PCRE's `\s` matches without the /u flag: space, \t, \n, \x0B, \f and \r. */
  predicate IsSpace(c: char) {
    c == ' ' || c == '\t' || c == '\n' || c == '\U{000B}' || c == '\U{000C}' || c == '\r'
  }

  /** PHP truthiness of a string: only "" and "0" are false. */
  predicate Truthy(s: string) {
    s != "" && s != "0"
  }

  /** How many characters at the start of s satisfy strip. */
  function LeadCount(s: string, strip: char -> bool): (n: nat)
    ensures n <= |s|
    ensures forall k :: 0 <= k < n ==> strip(s[k])
    ensures n == |s| || !strip(s[n])
  {
    if s == [] || !strip(s[0]) then 0 else 1 + LeadCount(s[1..], strip)
  }

  /** How many characters at the end of s satisfy strip. */
  function TailCount(s: string, strip: char -> bool): (n: nat)
    ensures n <= |s|
    ensures forall k :: |s| - n <= k < |s| ==> strip(s[k])
    ensures n == |s| || !strip(s[|s| - 1 - n])
  {
    if s == [] || !strip(s[|s| - 1]) then 0 else 1 + TailCount(s[..|s| - 1], strip)
  }

  /** trim($s, $chars): s without its leading and trailing runs of strip characters. */
  function TrimBy(s: string, strip: char -> bool): (r: string)
    ensures |r| <= |s|
    ensures r == [] || (!strip(r[0]) && !strip(r[|r| - 1]))
    ensures (s == [] || (!strip(s[0]) && !strip(s[|s| - 1]))) ==> r == s
    ensures r == [] <==> forall k :: 0 <= k < |s| ==> strip(s[k])
  {
    var i := LeadCount(s, strip);
    var j := |s| - TailCount(s[i..], strip);
    s[i..j]
  }

  /** trim($s) with PHP's default character list. */
  function Trim(s: string): string {
    TrimBy(s, IsTrimChar)
  }

  /** trim() leaves a string alone when neither end is a character it strips. */
  lemma TrimKeeps(s: string)
    requires s == [] || (!IsTrimChar(s[0]) && !IsTrimChar(s[|s| - 1]))
    ensures Trim(s) == s
  {
  }

  function LowerChar(c: char): char {
    if 'A' <= c <= 'Z' then (c as int + 32) as char else c
  }

  function UpperChar(c: char): char {
    if 'a' <= c <= 'z' then (c as int - 32) as char else c
  }

  /** strtolower. */
  function Lower(s: string): (r: string)
    ensures |r| == |s|
  {
    seq(|s|, k requires 0 <= k < |s| => LowerChar(s[k]))
  }

  /** strtolower leaves a string without capital letters as it is. */
  lemma LowerKeeps(s: string)
    requires forall k :: 0 <= k < |s| ==> !('A' <= s[k] <= 'Z')
    ensures Lower(s) == s
  {
  }

  /** strtoupper. */
  function Upper(s: string): (r: string)
    ensures |r| == |s|
  {
    seq(|s|, k requires 0 <= k < |s| => UpperChar(s[k]))
  }

  /** The needle n occurs in the haystack h at index i. */
  predicate OccursAt(h: string, n: string, i: nat) {
    i + |n| <= |h| && h[i..i + |n|] == n
  }

  /** strpos($h, $n, $from): the first index at or after from where n occurs in h. */
  function FindFrom(h: string, n: string, from: nat): (r: Option<nat>)
    decreases |h| - from
    ensures r.Some? ==> from <= r.value && OccursAt(h, n, r.value)
    ensures r.Some? ==> forall j :: from <= j < r.value ==> !OccursAt(h, n, j)
    ensures r.None? ==> forall j :: from <= j ==> !OccursAt(h, n, j)
  {
    if from + |n| > |h| then None
    else if h[from..from + |n|] == n then Some(from)
    else FindFrom(h, n, from + 1)
  }

  /** strpos($h, $n). */
  function StrPos(h: string, n: string): Option<nat> {
    FindFrom(h, n, 0)
  }

  /** stripos($h, $n): strpos after folding both to lower case. */
  function StrIPos(h: string, n: string): Option<nat> {
    FindFrom(Lower(h), Lower(n), 0)
  }

  /** n is a case-insensitive substring of h. */
  ghost predicate ContainsIgnoringCase(h: string, n: string) {
    exists i: nat :: OccursAt(Lower(h), Lower(n), i)
  }

  /** `stripos($h, $n) !== false` holds exactly when n is a case-insensitive substring of h. */
  lemma StrIPosFinds(h: string, n: string)
    ensures StrIPos(h, n).Some? <==> ContainsIgnoringCase(h, n)
  {
    if StrIPos(h, n).Some? {
      assert OccursAt(Lower(h), Lower(n), StrIPos(h, n).value);
    }
  }

  /** `strpos($h, $n) === 0` holds exactly when n is a prefix of h. */
  lemma StrPosZeroIsPrefix(h: string, n: string)
    ensures StrPos(h, n) == Some(0) <==> (|n| <= |h| && h[..|n|] == n)
  {
  }

  /** The first index of c in s. */
  function IndexOf(s: string, c: char): (r: Option<nat>)
    ensures r.Some? ==> r.value < |s| && s[r.value] == c && c !in s[..r.value]
    ensures r.None? ==> c !in s
  {
    if s == [] then None
    else if s[0] == c then Some(0)
    else match IndexOf(s[1..], c)
      case None => None
      case Some(i) =>
        assert s[..i + 1] == [s[0]] + s[1..][..i];
        Some(i + 1)
  }

  /** file($f, FILE_IGNORE_NEW_LINES) on contents s: split at '\n', with no empty line after a final '\n'. */
  function Lines(s: string): (r: seq<string>)
    decreases |s|
    ensures forall k :: 0 <= k < |r| ==> '\n' !in r[k]
  {
    if s == [] then []
    else match IndexOf(s, '\n')
      case None => [s]
      case Some(i) => [s[..i]] + Lines(s[i + 1..])
  }

  /** A newline-free line followed by '\n' is read back as exactly that line. */
  lemma LinesOfTerminatedLine(x: string, rest: string)
    requires '\n' !in x
    ensures Lines(x + "\n" + rest) == [x] + Lines(rest)
  {
    var s := x + "\n" + rest;
    assert s[|x|] == '\n' && s[..|x|] == x;
    assert IndexOf(s, '\n') == Some(|x|);
    assert s[|x| + 1..] == rest;
  }

  /** Text that ends at a line boundary splits independently of what follows it. */
  lemma {:induction false} LinesAppend(a: string, b: string)
    requires a == [] || a[|a| - 1] == '\n'
    ensures Lines(a + b) == Lines(a) + Lines(b)
    decreases |a|
  {
    if a == [] {
      assert a + b == b;
    } else {
      var i := IndexOf(a, '\n').value;
      SplitAtNewline(a, b, i);
      LinesAppend(a[i + 1..], b);
      LinesAfterFirstLine(a[..i], a[i + 1..], b);
    }
  }

  /** Appending behind the rest of a text leaves its first line alone. */
  lemma LinesAfterFirstLine(x: string, rest: string, b: string)
    requires '\n' !in x
    requires Lines(rest + b) == Lines(rest) + Lines(b)
    ensures Lines(x + "\n" + (rest + b)) == Lines(x + "\n" + rest) + Lines(b)
  {
    calc {
      Lines(x + "\n" + (rest + b));
      { LinesOfTerminatedLine(x, rest + b); }
      [x] + Lines(rest + b);
      [x] + (Lines(rest) + Lines(b));
      ([x] + Lines(rest)) + Lines(b);
      { LinesOfTerminatedLine(x, rest); }
      Lines(x + "\n" + rest) + Lines(b);
    }
  }

  /** Cutting terminated text at a newline leaves terminated text after it, and text appended stays after it. */
  lemma SplitAtNewline(a: string, b: string, i: nat)
    requires i < |a| && a[i] == '\n' && a[|a| - 1] == '\n'
    ensures a == a[..i] + "\n" + a[i + 1..]
    ensures a + b == a[..i] + "\n" + (a[i + 1..] + b)
    ensures a[i + 1..] == [] || a[i + 1..][|a[i + 1..]| - 1] == '\n'
  {
    assert a == a[..i] + "\n" + a[i + 1..];
  }

  /** explode($sep, $s). */
  function Explode(s: string, sep: char): (r: seq<string>)
    decreases |s|
    ensures |r| >= 1
    ensures forall k :: 0 <= k < |r| ==> sep !in r[k]
  {
    match IndexOf(s, sep)
    case None => [s]
    case Some(i) => [s[..i]] + Explode(s[i + 1..], sep)
  }

  /** implode($sep, $parts). */
  function Implode(parts: seq<string>, sep: char): string {
    if |parts| == 0 then ""
    else if |parts| == 1 then parts[0]
    else parts[0] + [sep] + Implode(parts[1..], sep)
  }

  /** Joining the pieces of an explode with the same separator gives the string back. */
  lemma {:induction false} ImplodeExplode(s: string, sep: char)
    ensures Implode(Explode(s, sep), sep) == s
    decreases |s|
  {
    match IndexOf(s, sep)
    case None =>
    case Some(i) =>
      var tail := Explode(s[i + 1..], sep);
      assert Explode(s, sep) == [s[..i]] + tail;
      ImplodeExplode(s[i + 1..], sep);
      assert Implode([s[..i]] + tail, sep) == s[..i] + [sep] + Implode(tail, sep);
      assert s == s[..i] + [sep] + s[i + 1..];
  }

  /** Appending one more piece appends the separator and the piece. */
  lemma {:induction false} ImplodeSnoc(parts: seq<string>, p: string, sep: char)
    requires |parts| >= 1
    ensures Implode(parts + [p], sep) == Implode(parts, sep) + [sep] + p
    decreases |parts|
  {
    if |parts| > 1 {
      assert (parts + [p])[1..] == parts[1..] + [p];
      ImplodeSnoc(parts[1..], p, sep);
    }
  }

  /** The decimal digits of n, as PHP prints an integer. */
  function Decimal(n: nat): (r: string)
    ensures |r| >= 1
    ensures forall k :: 0 <= k < |r| ==> '0' <= r[k] <= '9'
  {
    if n < 10 then [('0' as int + n) as char]
    else Decimal(n / 10) + [('0' as int + n % 10) as char]
  }

  function Spaces(n: nat): (r: string)
    ensures |r| == n && forall k :: 0 <= k < n ==> r[k] == ' '
  {
    seq(n, _ => ' ')
  }

  /** str_pad($s, $width): s followed by spaces up to width characters. */
  function PadRight(s: string, width: nat): (r: string)
    ensures |s| < width ==> |r| == width
    ensures |s| >= width ==> r == s
    ensures r[..|s|] == s && forall k :: |s| <= k < |r| ==> r[k] == ' '
  {
    if |s| < width then s + Spaces(width - |s|) else s
  }
}
