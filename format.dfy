/**
 * filelight_formatSize (index.php:292-297): a byte count as "512 B", "2.0 KB",
 * "5.0 MB" or "2.0 GB". The division by a power of two is exact in a double for
 * any file below 2^53 bytes, so number_format's rounding to one decimal is stated
 * here on integers, in tenths of the unit, with halves rounded up.
 */
module Format {
  import opened Text

  datatype Unit = B | KB | MB | GB

  /** The bytes in one unit. */
  function UnitSize(u: Unit): nat {
    match u
    case B => 1
    case KB => 1024
    case MB => 1048576
    case GB => 1073741824
  }

  function UnitName(u: Unit): string {
    match u
    case B => "B"
    case KB => "KB"
    case MB => "MB"
    case GB => "GB"
  }

  /** The unit the cascade of index.php:293-296 picks: the largest one not above the size, capped at GB. */
  function UnitOf(bytes: nat): (u: Unit)
    ensures u == B <==> bytes < 1024
    ensures u == KB <==> 1024 <= bytes < 1048576
    ensures u == MB <==> 1048576 <= bytes < 1073741824
    ensures u == GB <==> 1073741824 <= bytes
  {
    if bytes < 1024 then B
    else if bytes < 1048576 then KB
    else if bytes < 1073741824 then MB
    else GB
  }

  /** The unit is never larger than the size, and below GB the size is under 1024 of it. */
  lemma UnitFits(bytes: nat)
    ensures UnitSize(UnitOf(bytes)) <= bytes || bytes == 0
    ensures UnitOf(bytes) != GB ==> bytes < 1024 * UnitSize(UnitOf(bytes))
  {
  }

  /** `round($bytes / $size, 1)` in tenths: the nearest tenth, a half rounded up. */
  function Tenths(bytes: nat, size: nat): (t: nat)
    requires size > 0
    ensures 2 * t * size <= 20 * bytes + size < 2 * t * size + 2 * size
  {
    var t := (20 * bytes + size) / (2 * size);
    DivBounds(20 * bytes + size, 2 * size);
    t
  }

  /** Euclidean division brackets its dividend. */
  lemma DivBounds(a: nat, b: nat)
    requires b > 0
    ensures (a / b) * b <= a < (a / b) * b + b
  {
  }

  /** How far s tenths of size lie from bytes, in twentieths of size. */
  function Distance(bytes: nat, size: nat, s: nat): nat {
    var d := 20 * bytes - 2 * s * size;
    if d < 0 then -d else d
  }

  /** No other tenth is closer: the rounding picks the nearest one. */
  lemma TenthsIsNearest(bytes: nat, size: nat, s: nat)
    requires size > 0
    ensures Distance(bytes, size, Tenths(bytes, size)) <= size
    ensures Distance(bytes, size, s) >= Distance(bytes, size, Tenths(bytes, size))
  {
    var t := Tenths(bytes, size);
    var a := 20 * bytes;
    var pt := 2 * t * size;
    var ps := 2 * s * size;
    assert pt <= a + size < pt + 2 * size;
    assert Distance(bytes, size, t) == if a < pt then pt - a else a - pt;
    assert Distance(bytes, size, s) == if a < ps then ps - a else a - ps;
    if s < t {
      StepApart(s, t, size);
    }
    if s > t {
      StepApart(t, s, size);
    }
  }

  /** Two different tenths lie at least one whole tenth, two twentieths, apart. */
  lemma StepApart(x: nat, y: nat, z: nat)
    requires x < y
    ensures 2 * x * z + 2 * z <= 2 * y * z
  {
    var d := y - x;
    assert 2 * y * z == 2 * x * z + 2 * d * z;
    assert d * z >= z;
  }

  function Digit(n: nat): (c: char)
    requires n < 10
    ensures '0' <= c <= '9'
  {
    ('0' as int + n) as char
  }

  /** Three digits with leading zeros: one group after a thousands separator. */
  function Pad3(n: nat): (r: string)
    requires n < 1000
    ensures |r| == 3 && forall k :: 0 <= k < 3 ==> '0' <= r[k] <= '9'
  {
    [Digit(n / 100), Digit(n / 10 % 10), Digit(n % 10)]
  }

  /** number_format's integer part: decimal digits with ',' between groups of three. */
  function Grouped(n: nat): string
    decreases n
  {
    if n < 1000 then Decimal(n) else Grouped(n / 1000) + "," + Pad3(n % 1000)
  }

  /** A string without its thousands separators. */
  function Ungroup(s: string): (r: string)
    ensures ',' !in r
  {
    if s == [] then []
    else (if s[0] == ',' then [] else [s[0]]) + Ungroup(s[1..])
  }

  lemma {:induction false} UngroupAppend(a: string, b: string)
    ensures Ungroup(a + b) == Ungroup(a) + Ungroup(b)
    decreases |a|
  {
    if a != [] {
      var h := if a[0] == ',' then [] else [a[0]];
      assert (a + b)[0] == a[0] && (a + b)[1..] == a[1..] + b;
      UngroupAppend(a[1..], b);
      calc {
        Ungroup(a + b);
        h + Ungroup(a[1..] + b);
        h + (Ungroup(a[1..]) + Ungroup(b));
        (h + Ungroup(a[1..])) + Ungroup(b);
        Ungroup(a) + Ungroup(b);
      }
    } else {
      assert a + b == b;
    }
  }

  lemma {:induction false} UngroupDigits(s: string)
    requires forall k :: 0 <= k < |s| ==> '0' <= s[k] <= '9'
    ensures Ungroup(s) == s
    decreases |s|
  {
    if s != [] {
      UngroupDigits(s[1..]);
      assert s == [s[0]] + s[1..];
    }
  }

  /** The last three digits of a number of at least four digits are its low group. */
  lemma DecimalSplits(n: nat)
    requires n >= 1000
    ensures Decimal(n) == Decimal(n / 1000) + Pad3(n % 1000)
  {
    var n1, n2 := n / 10, n / 100;
    DecimalLast(n);
    DecimalLast(n1);
    DecimalLast(n2);
    ThousandDigits(n);
    var a, b, c := Digit(n % 1000 / 100), Digit(n % 1000 / 10 % 10), Digit(n % 1000 % 10);
    assert Decimal(n) == Decimal(n / 1000) + [a] + [b] + [c];
    assert [a] + [b] + [c] == Pad3(n % 1000);
  }

  /** Decimal writes the last digit after the digits of the rest. */
  lemma DecimalLast(n: nat)
    requires n >= 10
    ensures Decimal(n) == Decimal(n / 10) + [Digit(n % 10)]
  {
  }

  /** The low three digits, read off by repeated division by ten. */
  lemma ThousandDigits(n: nat)
    ensures n / 10 / 10 == n / 100 && n / 100 / 10 == n / 1000
    ensures n / 100 % 10 == n % 1000 / 100
    ensures n / 10 % 10 == n % 1000 / 10 % 10
    ensures n % 10 == n % 1000 % 10
  {
  }

  /** The separators are the only thing grouping adds: without them the digits are the plain number. */
  lemma {:induction false} GroupedIsDecimal(n: nat)
    ensures Ungroup(Grouped(n)) == Decimal(n)
    decreases n
  {
    if n < 1000 {
      UngroupDigits(Decimal(n));
    } else {
      GroupedIsDecimal(n / 1000);
      UngroupStep(n);
      DecimalSplits(n);
    }
  }

  /** Ungrouping a number of four digits or more ungroups its leading groups and keeps its low group. */
  lemma UngroupStep(n: nat)
    requires n >= 1000
    ensures Ungroup(Grouped(n)) == Ungroup(Grouped(n / 1000)) + Pad3(n % 1000)
  {
    var g, low := Grouped(n / 1000), Pad3(n % 1000);
    var comma := ",";
    assert Ungroup(comma) == [] by {
      assert comma[1..] == [];
    }
    calc {
      Ungroup(Grouped(n));
      Ungroup(g + comma + low);
      { UngroupAppend(g + comma, low); }
      Ungroup(g + comma) + Ungroup(low);
      { UngroupAppend(g, comma); UngroupDigits(low); }
      Ungroup(g) + [] + low;
      Ungroup(g) + low;
    }
  }

  /** filelight_formatSize. */
  function FormatSize(bytes: nat): string {
    var u := UnitOf(bytes);
    if u == B then Decimal(bytes) + " B"
    else
      var t := Tenths(bytes, UnitSize(u));
      Grouped(t / 10) + "." + [Digit(t % 10)] + " " + UnitName(u)
  }

  /**
   * Below 1024 bytes the size is printed as an integer of bytes; above, as the
   * nearest tenth of the chosen unit, whose digits read back to that tenth.
   */
  lemma FormatSizeReads(bytes: nat)
    ensures bytes < 1024 ==> FormatSize(bytes) == Decimal(bytes) + " B"
    ensures bytes >= 1024 ==>
      var u := UnitOf(bytes);
      var s := FormatSize(bytes);
      var t := Tenths(bytes, UnitSize(u));
      exists w :: Ungroup(w) == Decimal(t / 10) && s == w + "." + [Digit(t % 10)] + " " + UnitName(u)
  {
    if bytes >= 1024 {
      var t := Tenths(bytes, UnitSize(UnitOf(bytes)));
      GroupedIsDecimal(t / 10);
    }
  }

  /** Just below 1 MB the rounding reaches 1024 of the smaller unit: the unit is picked before rounding. */
  lemma RoundingReachesNextUnit()
    ensures FormatSize(1048575) == "1,024.0 KB"
  {
    assert Tenths(1048575, 1024) == 10240;
    GroupedThousand();
    assert Digit(0) == '0';
  }

  lemma GroupedThousand()
    ensures Grouped(1024) == "1,024"
  {
    assert Pad3(24) == "024";
    assert Decimal(1) == "1";
  }

  /** A whole number of units rounds to that number of tenths exactly. */
  lemma TenthsOfMultiple(k: nat, size: nat)
    requires size > 0
    ensures Tenths(k * size, size) == 10 * k
  {
    var t := Tenths(k * size, size);
    assert 20 * (k * size) == 2 * (10 * k) * size;
    if t < 10 * k {
      StepApart(t, 10 * k, size);
    } else if t > 10 * k {
      StepApart(10 * k, t, size);
    }
  }

  /** A size of k whole units, k below 1024 or the unit GB, prints as k with a single zero decimal. */
  lemma WholeUnits(k: nat, u: Unit)
    requires u != B && k >= 1 && (k < 1024 || u == GB)
    ensures FormatSize(k * UnitSize(u)) == Grouped(k) + ".0 " + UnitName(u)
  {
    var bytes := k * UnitSize(u);
    assert UnitOf(bytes) == u by {
      match u
      case KB => assert 1024 <= k * 1024 < 1048576;
      case MB => assert 1048576 <= k * 1048576 < 1073741824;
      case GB => assert 1073741824 <= k * 1073741824;
    }
    TenthsOfMultiple(k, UnitSize(u));
    assert Digit(0) == '0';
  }

  lemma SmallSizes()
    ensures FormatSize(512) == "512 B"
    ensures FormatSize(2048) == "2.0 KB"
  {
    assert Decimal(512) == "512";
    assert Grouped(2) == "2";
    WholeUnits(2, KB);
  }

  lemma LargeSizes()
    ensures FormatSize(5242880) == "5.0 MB"
    ensures FormatSize(2147483648) == "2.0 GB"
  {
    assert Grouped(2) == "2" && Grouped(5) == "5";
    WholeUnits(5, MB);
    WholeUnits(2, GB);
  }
}
