/**
 * Text form of IPv4 and IPv6 addresses, as produced by ip4_2a and ip6_2a.
 *
 * IPv4: dotted decimal without leading zeros. IPv6: the canonical text form of
 * section 4 of RFC 5952 -- hextets in lower-case hexadecimal without leading
 * zeros, and the longest run of two or more zero hextets (the left-most one on
 * a tie) replaced by "::".
 */
module AddressFormat {

  import opened Options
  import opened CStrings

  type Byte = x: int | 0 <= x < 0x100
  type Hextet = x: int | 0 <= x < 0x1_0000

  // ---------------------------------------------------------------------------
  // Numerals ("%d" and "%x")
  // ---------------------------------------------------------------------------

  predicate IsBase(base: nat) { base == 10 || base == 16 }

  /** The character printf uses for digit d: '0'..'9', then 'a'..'f'. */
  function Digit(d: nat): char
    requires d < 16
  {
    if d < 10 then ('0' as int + d) as char else ('a' as int + d - 10) as char
  }

  /** The value of a digit character in the given base, if it is one. */
  function DigitValue(c: char, base: nat): Option<nat>
    requires IsBase(base)
  {
    if '0' <= c <= '9' then Some(c as int - '0' as int)
    else if base == 16 && 'a' <= c <= 'f' then Some(c as int - 'a' as int + 10)
    else None
  }

  /** v written in the given base, most significant digit first, without leading zeros. */
  function Numeral(v: nat, base: nat): (s: string)
    requires IsBase(base)
    decreases v
  {
    if v < base then [Digit(v)] else Numeral(v / base, base) + [Digit(v % base)]
  }

  /** printf "%d" of a non-negative value. */
  function Dec(v: nat): string { Numeral(v, 10) }

  /** printf "%x" of a non-negative value. */
  function Hex(v: nat): string { Numeral(v, 16) }

  /** Reads a numeral back; None unless s is a non-empty string of digits of the base. */
  function ParseNumeral(s: string, base: nat): Option<nat>
    requires IsBase(base)
    decreases |s|
  {
    if s == [] then None
    else
      match DigitValue(s[|s| - 1], base)
      case None => None
      case Some(d) =>
        if |s| == 1 then Some(d)
        else
          match ParseNumeral(s[..|s| - 1], base)
          case None => None
          case Some(h) => Some(h * base + d)
  }

  lemma DigitRoundTrip(d: nat, base: nat)
    requires IsBase(base) && d < base
    ensures DigitValue(Digit(d), base) == Some(d)
  {
  }

  /** A numeral reads back as the value it was written from. */
  lemma {:induction false} NumeralRoundTrip(v: nat, base: nat)
    requires IsBase(base)
    ensures ParseNumeral(Numeral(v, base), base) == Some(v)
    decreases v
  {
    DigitRoundTrip(v % base, base);
    if v >= base {
      var s := Numeral(v, base);
      assert s[..|s| - 1] == Numeral(v / base, base);
      NumeralRoundTrip(v / base, base);
    }
  }

  /**
   * The shape printf promises: every character is a digit of the base, so in
   * particular lower-case and never a separator, and there is no leading zero.
   */
  lemma {:induction false} NumeralShape(v: nat, base: nat)
    requires IsBase(base)
    ensures |Numeral(v, base)| >= 1
    ensures forall k :: 0 <= k < |Numeral(v, base)| ==> DigitValue(Numeral(v, base)[k], base).Some?
    ensures Numeral(v, base)[0] == '0' <==> v == 0
    decreases v
  {
    if v >= base {
      NumeralShape(v / base, base);
      DigitRoundTrip(v % base, base);
      var s := Numeral(v, base);
      assert s == Numeral(v / base, base) + [Digit(v % base)];
      forall k | 0 <= k < |s| ensures DigitValue(s[k], base).Some? {
        if k < |s| - 1 { assert s[k] == Numeral(v / base, base)[k]; }
      }
    } else {
      DigitRoundTrip(v, base);
    }
  }

  /** A character that is not a digit of the base never occurs in a numeral of it. */
  lemma NumeralAvoids(v: nat, base: nat, c: char)
    requires IsBase(base) && DigitValue(c, base).None?
    ensures c !in Numeral(v, base)
  {
    NumeralShape(v, base);
  }

  lemma NumeralStep(v: nat, base: nat)
    requires IsBase(base) && v >= base
    ensures |Numeral(v, base)| == |Numeral(v / base, base)| + 1
  {
  }

  lemma DecLength(v: Byte)
    ensures 1 <= |Dec(v)| <= 3
  {
    if v >= 10 {
      NumeralStep(v, 10);
      if v / 10 >= 10 {
        NumeralStep(v / 10, 10);
        assert v / 10 / 10 < 10;
      }
    }
  }

  lemma HexLength(v: Hextet)
    ensures 1 <= |Hex(v)| <= 4
  {
    if v >= 16 {
      NumeralStep(v, 16);
      if v / 16 >= 16 {
        NumeralStep(v / 16, 16);
        if v / 16 / 16 >= 16 {
          NumeralStep(v / 16 / 16, 16);
          assert v / 16 / 16 / 16 < 16;
        }
      }
    }
  }

  // ---------------------------------------------------------------------------
  // Joining and splitting on a separator character
  // ---------------------------------------------------------------------------

  /** The parts with one separator between neighbours and none at either end. */
  function Join(parts: seq<string>, sep: char): string
    decreases |parts|
  {
    if |parts| == 0 then ""
    else if |parts| == 1 then parts[0]
    else Join(parts[..|parts| - 1], sep) + [sep] + parts[|parts| - 1]
  }

  /** The pieces of s between separators; a string without separators is one piece. */
  function Split(s: string, sep: char): (parts: seq<string>)
    ensures |parts| >= 1
    decreases |s|
  {
    if s == [] then [""]
    else
      var front := Split(s[..|s| - 1], sep);
      if s[|s| - 1] == sep then front + [""]
      else front[..|front| - 1] + [front[|front| - 1] + [s[|s| - 1]]]
  }

  lemma {:induction false} SplitNoSep(s: string, sep: char)
    requires sep !in s
    ensures Split(s, sep) == [s]
    decreases |s|
  {
    if s != [] {
      assert s[..|s| - 1] + [s[|s| - 1]] == s;
      SplitNoSep(s[..|s| - 1], sep);
    }
  }

  lemma {:induction false} SplitAfterSep(s: string, sep: char, t: string)
    requires sep !in t
    ensures Split(s + [sep] + t, sep) == Split(s, sep) + [t]
    decreases |t|
  {
    var u := s + [sep] + t;
    if t == [] {
      assert u[..|u| - 1] == s;
    } else {
      var t' := t[..|t| - 1];
      assert u[..|u| - 1] == s + [sep] + t';
      assert t' + [t[|t| - 1]] == t;
      SplitAfterSep(s, sep, t');
    }
  }

  /** Splitting undoes joining when no part contains the separator. */
  lemma {:induction false} SplitJoin(parts: seq<string>, sep: char)
    requires |parts| >= 1
    requires forall k :: 0 <= k < |parts| ==> sep !in parts[k]
    ensures Split(Join(parts, sep), sep) == parts
    decreases |parts|
  {
    if |parts| == 1 {
      SplitNoSep(parts[0], sep);
    } else {
      var front, last := parts[..|parts| - 1], parts[|parts| - 1];
      assert Join(parts, sep) == Join(front, sep) + [sep] + last;
      assert forall k :: 0 <= k < |front| ==> front[k] == parts[k];
      SplitJoin(front, sep);
      SplitAfterSep(Join(front, sep), sep, last);
      assert front + [last] == parts;
    }
  }

  lemma {:induction false} JoinLength(parts: seq<string>, sep: char, width: nat)
    requires forall k :: 0 <= k < |parts| ==> |parts[k]| <= width
    ensures |parts| >= 1 ==> |Join(parts, sep)| <= |parts| * (width + 1) - 1
    ensures |parts| == 0 ==> Join(parts, sep) == ""
    decreases |parts|
  {
    if |parts| > 1 {
      JoinLength(parts[..|parts| - 1], sep, width);
      assert (|parts| - 1) * (width + 1) + (width + 1) == |parts| * (width + 1);
    }
  }

  // ---------------------------------------------------------------------------
  // IPv4 (ip4_2a)
  // ---------------------------------------------------------------------------

  /** "a.b.c.d", the output of sprintf "%d.%d.%d.%d" on the four address bytes. */
  function Ip4Text(a: seq<Byte>): (t: string)
    requires |a| == 4
    ensures 7 <= |t| <= 15
  {
    DecLength(a[0]); DecLength(a[1]); DecLength(a[2]); DecLength(a[3]);
    Dec(a[0]) + "." + Dec(a[1]) + "." + Dec(a[2]) + "." + Dec(a[3])
  }

  /** Reads dotted decimal back; None unless there are four decimal parts below 256. */
  function ParseIp4(s: string): Option<seq<Byte>>
  {
    var parts := Split(s, '.');
    if |parts| != 4 then None
    else
      var ns := seq(4, k requires 0 <= k < 4 => ParseNumeral(parts[k], 10));
      if forall k :: 0 <= k < 4 ==> ns[k].Some? && ns[k].value < 0x100
      then Some(seq(4, k requires 0 <= k < 4 => ns[k].value as Byte))
      else None
  }

  lemma Join4(p: seq<string>, sep: char)
    requires |p| == 4
    ensures Join(p, sep) == p[0] + [sep] + p[1] + [sep] + p[2] + [sep] + p[3]
  {
    var p3, p2 := p[..3], p[..3][..2];
    assert p2[..1] == [p[0]];
    assert Join(p2, sep) == p[0] + [sep] + p[1];
    assert Join(p3, sep) == Join(p2, sep) + [sep] + p[2];
  }

  /** The dotted text is 7 to 15 characters long and reads back as the same address. */
  lemma Ip4TextRoundTrip(a: seq<Byte>)
    requires |a| == 4
    ensures 7 <= |Ip4Text(a)| <= 15
    ensures ParseIp4(Ip4Text(a)) == Some(a)
  {
    var parts := [Dec(a[0]), Dec(a[1]), Dec(a[2]), Dec(a[3])];
    DecPart(a[0]);
    DecPart(a[1]);
    DecPart(a[2]);
    DecPart(a[3]);
    Join4(parts, '.');
    assert Join(parts, '.') == Ip4Text(a);
    SplitJoin(parts, '.');
    ParseFourParts(Ip4Text(a), parts, a);
  }

  /** One byte's part of the dotted text: 1 to 3 digits, no dot, reading back as the byte. */
  lemma DecPart(b: Byte)
    ensures '.' !in Dec(b) && 1 <= |Dec(b)| <= 3
    ensures ParseNumeral(Dec(b), 10) == Some(b)
  {
    DecLength(b);
    NumeralAvoids(b, 10, '.');
    NumeralRoundTrip(b, 10);
  }

  /** Text that splits at the dots into four parts, each reading as the matching byte, reads back as those bytes. */
  lemma ParseFourParts(s: string, parts: seq<string>, a: seq<Byte>)
    requires |parts| == 4 && |a| == 4 && Split(s, '.') == parts
    requires forall k :: 0 <= k < 4 ==> ParseNumeral(parts[k], 10) == Some(a[k])
    ensures ParseIp4(s) == Some(a)
  {
    var ns := seq(4, k requires 0 <= k < 4 => ParseNumeral(parts[k], 10));
    assert forall k :: 0 <= k < 4 ==> ns[k].Some? && ns[k].value < 0x100;
    var w := seq(4, k requires 0 <= k < 4 => ns[k].value as Byte);
    assert forall k :: 0 <= k < 4 ==> w[k] == a[k];
    assert w == a;
  }

  /** ip4_2a's output for 192.168.1.10. */
  lemma Ip4Example()
    ensures Ip4Text([192, 168, 1, 10]) == "192.168.1.10"
  {
    assert Dec(1) == "1" && Dec(10) == "10";
    assert Dec(19) == "19" && Dec(192) == "192";
    assert Dec(16) == "16" && Dec(168) == "168";
  }

  // ---------------------------------------------------------------------------
  // IPv6 (ip6_2a): hextets and zero runs
  // ---------------------------------------------------------------------------

  /** The eight hextets of a 16-byte address, high byte first. */
  function Hextets(a: seq<Byte>): (v: seq<Hextet>)
    requires |a| == 16
    ensures |v| == 8
  {
    seq(8, k requires 0 <= k < 8 => (a[2 * k] as int) * 0x100 + a[2 * k + 1])
  }

  /** The bytes of a sequence of hextets, high byte first. */
  function HextetBytes(v: seq<Hextet>): (a: seq<Byte>)
    ensures |a| == 2 * |v|
  {
    seq(2 * |v|, i requires 0 <= i < 2 * |v| =>
      if i % 2 == 0 then v[i / 2] / 0x100 else v[i / 2] % 0x100)
  }

  /** Reading hextets loses nothing: the bytes can be recovered from them. */
  lemma HextetsRoundTrip(a: seq<Byte>)
    requires |a| == 16
    ensures HextetBytes(Hextets(a)) == a
  {
    var v := Hextets(a);
    forall i | 0 <= i < 16 ensures HextetBytes(v)[i] == a[i] {
      var k := i / 2;
      assert v[k] == (a[2 * k] as int) * 0x100 + a[2 * k + 1];
      assert v[k] / 0x100 == a[2 * k] && v[k] % 0x100 == a[2 * k + 1];
    }
  }

  /** A maximal block of n >= 1 zero hextets starting at k. */
  ghost predicate IsZeroRun(v: seq<Hextet>, k: int, n: int)
  {
    0 <= k && 1 <= n && k + n <= |v|
    && (forall i :: k <= i < k + n ==> v[i] == 0)
    && (k == 0 || v[k - 1] != 0)
    && (k + n == |v| || v[k + n] != 0)
  }

  /**
   * Among the maximal zero runs that start before i, (idx, n) is the one to
   * compress: none at all (idx == |v|, n == 0) when each is a single hextet,
   * otherwise one of length n >= 2 that no other run exceeds and that only a
   * run further right can equal.
   */
  ghost predicate IsBestBefore(v: seq<Hextet>, i: int, idx: int, n: int)
  {
    if n == 0 then
      idx == |v| && forall k, m :: IsZeroRun(v, k, m) && k < i ==> m < 2
    else
      2 <= n && idx < i && IsZeroRun(v, idx, n)
      && forall k, m :: IsZeroRun(v, k, m) && k < i ==> m < n || (m == n && idx <= k)
  }

  /** The run the canonical form compresses, chosen among all runs of v. */
  ghost predicate IsChosenRun(v: seq<Hextet>, idx: int, n: int)
  {
    IsBestBefore(v, |v|, idx, n)
  }

  /** No zero run is cut in two at position i. */
  ghost predicate AtRunBoundary(v: seq<Hextet>, i: int)
    requires 0 <= i <= |v|
  {
    i == 0 || i == |v| || v[i - 1] != 0 || v[i] != 0
  }

  /** The number of consecutive zero hextets from i on. */
  function ZeroLen(v: seq<Hextet>, i: nat): (n: nat)
    requires i <= |v|
    ensures i + n <= |v|
    ensures forall k :: i <= k < i + n ==> v[k] == 0
    ensures i + n == |v| || v[i + n] != 0
    decreases |v| - i
  {
    if i < |v| && v[i] == 0 then 1 + ZeroLen(v, i + 1) else 0
  }

  /** A zero hextet at a run boundary starts a run of ZeroLen hextets, and no other run starts inside it. */
  lemma ZeroRunsFrom(v: seq<Hextet>, i: nat)
    requires i < |v| && v[i] == 0 && AtRunBoundary(v, i)
    ensures IsZeroRun(v, i, ZeroLen(v, i))
    ensures forall k, m :: IsZeroRun(v, k, m) && i <= k < i + ZeroLen(v, i) ==> k == i && m == ZeroLen(v, i)
  {
    var n := ZeroLen(v, i);
    forall k, m | IsZeroRun(v, k, m) && i <= k < i + n ensures k == i && m == n {
    }
  }

  /**
   * The scan of lines 111-132 as a recursive function: from position i, skip
   * a non-zero hextet, or take the zero run at i and keep it only when it is
   * longer than the run kept so far.
   */
  function ScanRuns(v: seq<Hextet>, i: nat, idx: nat, n: nat): (r: (nat, nat))
    requires i <= |v|
    ensures r.1 >= n
    ensures r.1 == n ==> r.0 == idx
    decreases |v| - i
  {
    if i == |v| then (idx, n)
    else if v[i] != 0 then ScanRuns(v, i + 1, idx, n)
    else
      var m := ZeroLen(v, i);
      if m >= 2 && m > n then ScanRuns(v, i + m, i, m) else ScanRuns(v, i + m, idx, n)
  }

  /** Started at a run boundary with the best run so far, the scan ends with the chosen run. */
  lemma {:induction false} ScanRunsChosen(v: seq<Hextet>, i: nat, idx: nat, n: nat)
    requires i <= |v| && AtRunBoundary(v, i) && IsBestBefore(v, i, idx, n)
    ensures IsChosenRun(v, ScanRuns(v, i, idx, n).0, ScanRuns(v, i, idx, n).1)
    decreases |v| - i
  {
    if i == |v| {
    } else if v[i] != 0 {
      ScanRunsChosen(v, i + 1, idx, n);
    } else {
      ZeroRunsFrom(v, i);
      var m := ZeroLen(v, i);
      if m >= 2 && m > n {
        ScanRunsChosen(v, i + m, i, m);
      } else {
        ScanRunsChosen(v, i + m, idx, n);
      }
    }
  }

  /**
   * The zero run to compress: (|v|, 0) when no run has two or more hextets,
   * else the longest run, the left-most of equally long ones.
   */
  function ChosenRun(v: seq<Hextet>): (r: (nat, nat))
    ensures IsChosenRun(v, r.0, r.1)
    ensures r.1 == 0 <==> forall k, m :: IsZeroRun(v, k, m) ==> m < 2
    ensures r.1 != 0 ==> r.1 >= 2 && r.0 + r.1 <= |v|
  {
    ScanRunsChosen(v, 0, |v|, 0);
    ScanRuns(v, 0, |v|, 0)
  }

  /** The choice rule leaves no freedom: at most one run satisfies it. */
  lemma ChosenRunUnique(v: seq<Hextet>, idx1: int, n1: int, idx2: int, n2: int)
    requires IsChosenRun(v, idx1, n1) && IsChosenRun(v, idx2, n2)
    ensures idx1 == idx2 && n1 == n2
  {
  }

  // ---------------------------------------------------------------------------
  // IPv6 text
  // ---------------------------------------------------------------------------

  function HexGroups(v: seq<Hextet>): (g: seq<string>)
    ensures |g| == |v|
  {
    seq(|v|, k requires 0 <= k < |v| => Hex(v[k]))
  }

  /** The hextets in "%x", separated by single colons. */
  function JoinHex(v: seq<Hextet>): string
  {
    Join(HexGroups(v), ':')
  }

  /**
   * The canonical text of a sequence of hextets: the groups joined by ':',
   * with the chosen zero run, if any, replaced by "::".
   */
  function Ip6Text(v: seq<Hextet>): string
  {
    var r := ChosenRun(v);
    if r.1 == 0 then JoinHex(v) else JoinHex(v[..r.0]) + "::" + JoinHex(v[r.0 + r.1..])
  }

  /** Where "::" first occurs in s. */
  function FindDoubleColon(s: string): (r: Option<nat>)
    ensures r.Some? ==> r.value + 1 < |s| && s[r.value] == ':' && s[r.value + 1] == ':'
    ensures r.Some? ==> forall k :: 0 <= k < r.value ==> !(s[k] == ':' && s[k + 1] == ':')
    ensures r.None? ==> forall k :: 0 <= k < |s| - 1 ==> !(s[k] == ':' && s[k + 1] == ':')
    decreases |s|
  {
    if |s| < 2 then None
    else if s[0] == ':' && s[1] == ':' then Some(0)
    else
      match FindDoubleColon(s[1..])
      case None => None
      case Some(p) => Some(p + 1)
  }

  /** Reads colon-separated hexadecimal groups; the empty string is no group. */
  function ParseGroups(s: string): Option<seq<Hextet>>
  {
    if s == "" then Some([])
    else
      var parts := Split(s, ':');
      var ns := seq(|parts|, k requires 0 <= k < |parts| => ParseNumeral(parts[k], 16));
      if forall k :: 0 <= k < |parts| ==> ns[k].Some? && ns[k].value < 0x1_0000
      then Some(seq(|parts|, k requires 0 <= k < |parts| => ns[k].value as Hextet))
      else None
  }

  function Zeros(n: nat): (z: seq<Hextet>)
    ensures |z| == n && forall k :: 0 <= k < n ==> z[k] == 0
  {
    seq(n, _ => 0)
  }

  /** Reads IPv6 text back: eight groups, or fewer with one "::" standing for the missing zero groups. */
  function ParseIp6(s: string): Option<seq<Hextet>>
  {
    var p := FindDoubleColon(s);
    if p.None? then
      var g := ParseGroups(s);
      if g.Some? && |g.value| == 8 then g else None
    else
      var l, r := ParseGroups(s[..p.value]), ParseGroups(s[p.value + 2..]);
      if l.Some? && r.Some? && |l.value| + |r.value| < 8
      then Some(l.value + Zeros(8 - |l.value| - |r.value|) + r.value)
      else None
  }

  // Facts about JoinHex

  lemma HexAvoidsColon(x: Hextet)
    ensures ':' !in Hex(x) && 1 <= |Hex(x)| <= 4
  {
    NumeralAvoids(x, 16, ':');
    HexLength(x);
  }

  lemma JoinHexSnoc(w: seq<Hextet>, x: Hextet)
    ensures JoinHex(w + [x]) == if w == [] then Hex(x) else JoinHex(w) + ":" + Hex(x)
  {
    var g := HexGroups(w + [x]);
    assert g[..|g| - 1] == HexGroups(w);
  }

  lemma JoinHexLength(v: seq<Hextet>)
    ensures v == [] ==> JoinHex(v) == ""
    ensures v != [] ==> 1 <= |JoinHex(v)| <= 5 * |v| - 1
  {
    var g := HexGroups(v);
    forall k | 0 <= k < |g| ensures 1 <= |g[k]| <= 4 && ':' !in g[k] { HexAvoidsColon(v[k]); }
    JoinLength(g, ':', 4);
    if v != [] {
      JoinNonEmptyEnds(g, ':');
    }
  }

  /** Joining non-empty parts that avoid the separator never puts two separators side by side. */
  lemma {:induction false} JoinNonEmptyEnds(parts: seq<string>, sep: char)
    requires |parts| >= 1
    requires forall k :: 0 <= k < |parts| ==> |parts[k]| >= 1 && sep !in parts[k]
    ensures |Join(parts, sep)| >= 1
    ensures Join(parts, sep)[0] != sep && Join(parts, sep)[|Join(parts, sep)| - 1] != sep
    ensures forall k :: 0 <= k < |Join(parts, sep)| - 1 ==> !(Join(parts, sep)[k] == sep && Join(parts, sep)[k + 1] == sep)
    decreases |parts|
  {
    if |parts| == 1 {
      assert parts[0][0] in parts[0];
      assert parts[0][|parts[0]| - 1] in parts[0];
      forall k | 0 <= k < |parts[0]| - 1 ensures parts[0][k] != sep { assert parts[0][k] in parts[0]; }
    } else {
      var front := parts[..|parts| - 1];
      var last := parts[|parts| - 1];
      JoinNonEmptyEnds(front, sep);
      var j := Join(front, sep);
      var s := Join(parts, sep);
      assert s == j + [sep] + last;
      assert last[0] in last && last[|last| - 1] in last;
      forall k | 0 <= k < |s| - 1 ensures !(s[k] == sep && s[k + 1] == sep) {
        if k < |j| - 1 {
          assert s[k] == j[k] && s[k + 1] == j[k + 1];
        } else if k == |j| - 1 {
          assert s[k] == j[|j| - 1];
        } else if k == |j| {
          assert s[k + 1] == last[0];
        } else {
          assert s[k] == last[k - |j| - 1];
          assert s[k] in last;
        }
      }
    }
  }

  lemma NoDoubleColonInJoinHex(v: seq<Hextet>)
    ensures forall k :: 0 <= k < |JoinHex(v)| - 1 ==> !(JoinHex(v)[k] == ':' && JoinHex(v)[k + 1] == ':')
    ensures v != [] ==> JoinHex(v)[|JoinHex(v)| - 1] != ':'
  {
    if v != [] {
      var g := HexGroups(v);
      forall k | 0 <= k < |g| ensures |g[k]| >= 1 && ':' !in g[k] { HexAvoidsColon(v[k]); }
      JoinNonEmptyEnds(g, ':');
    }
  }

  /** Colon-separated groups read back as the hextets they were written from. */
  lemma ParseJoinHex(v: seq<Hextet>)
    ensures ParseGroups(JoinHex(v)) == Some(v)
  {
    JoinHexLength(v);
    if v != [] {
      var g := HexGroups(v);
      var s := JoinHex(v);
      forall k | 0 <= k < |g| ensures ':' !in g[k] && ParseNumeral(g[k], 16) == Some(v[k]) {
        HexAvoidsColon(v[k]);
        NumeralRoundTrip(v[k], 16);
      }
      SplitJoin(g, ':');
      ParseSplitGroups(s, g, v);
    }
  }

  /** Text that splits into groups each reading as the matching hextet reads back as those hextets. */
  lemma ParseSplitGroups(s: string, g: seq<string>, v: seq<Hextet>)
    requires s != "" && Split(s, ':') == g && |g| == |v|
    requires forall k :: 0 <= k < |g| ==> ParseNumeral(g[k], 16) == Some(v[k])
    ensures ParseGroups(s) == Some(v)
  {
    var ns := seq(|g|, k requires 0 <= k < |g| => ParseNumeral(g[k], 16));
    assert forall k :: 0 <= k < |g| ==> ns[k].Some? && ns[k].value < 0x1_0000;
    var w := seq(|g|, k requires 0 <= k < |g| => ns[k].value as Hextet);
    assert forall k :: 0 <= k < |g| ==> w[k] == v[k];
    assert w == v;
  }

  /** When a has no "::" and does not end in ':', the first "::" of a + "::" + b is the one after a. */
  lemma FirstDoubleColon(a: string, b: string)
    requires forall k :: 0 <= k < |a| - 1 ==> !(a[k] == ':' && a[k + 1] == ':')
    requires a != [] ==> a[|a| - 1] != ':'
    ensures FindDoubleColon(a + "::" + b) == Some(|a|)
  {
    var s := a + "::" + b;
    forall k | 0 <= k < |a| ensures !(s[k] == ':' && s[k + 1] == ':') {
      if k < |a| - 1 {
        assert s[k] == a[k] && s[k + 1] == a[k + 1];
      } else {
        assert s[k] == a[|a| - 1];
      }
    }
    assert s[|a|] == ':' && s[|a| + 1] == ':';
  }

  /** Text with "::" between two runs of groups reads back with the missing groups as zeros. */
  lemma ParseCompressed(pre: seq<Hextet>, suf: seq<Hextet>)
    requires |pre| + |suf| < 8
    ensures ParseIp6(JoinHex(pre) + "::" + JoinHex(suf)) == Some(pre + Zeros(8 - |pre| - |suf|) + suf)
  {
    var a, b := JoinHex(pre), JoinHex(suf);
    var s := a + "::" + b;
    assert FindDoubleColon(s) == Some(|a|) by {
      JoinHexLength(pre);
      NoDoubleColonInJoinHex(pre);
      FirstDoubleColon(a, b);
    }
    assert ParseGroups(s[..|a|]) == Some(pre) by {
      assert s[..|a|] == a;
      ParseJoinHex(pre);
    }
    assert ParseGroups(s[|a| + 2..]) == Some(suf) by {
      assert s[|a| + 2..] == b;
      ParseJoinHex(suf);
    }
    ParseAtDoubleColon(s, |a|, pre, suf);
  }

  /** ParseIp6 of a text whose first "::" is at k, with both sides read as groups. */
  lemma ParseAtDoubleColon(s: string, k: nat, l: seq<Hextet>, r: seq<Hextet>)
    requires FindDoubleColon(s) == Some(k) && |l| + |r| < 8
    requires ParseGroups(s[..k]) == Some(l) && ParseGroups(s[k + 2..]) == Some(r)
    ensures ParseIp6(s) == Some(l + Zeros(8 - |l| - |r|) + r)
  {
  }

  /** Eight groups without "::" read back as themselves. */
  lemma ParseUncompressed(v: seq<Hextet>)
    requires |v| == 8
    ensures ParseIp6(JoinHex(v)) == Some(v)
  {
    assert FindDoubleColon(JoinHex(v)).None? by {
      NoDoubleColonInJoinHex(v);
    }
    ParseJoinHex(v);
  }

  /** The canonical text is at most 39 characters (so 40 bytes hold it with its NUL) and reads back as the same hextets. */
  lemma Ip6TextRoundTrip(v: seq<Hextet>)
    requires |v| == 8
    ensures 2 <= |Ip6Text(v)| <= 39
    ensures ParseIp6(Ip6Text(v)) == Some(v)
  {
    var (idx, n) := ChosenRun(v);
    if n == 0 {
      JoinHexLength(v);
      ParseUncompressed(v);
    } else {
      assert IsZeroRun(v, idx, n);
      CompressedRoundTrip(v, idx, n);
    }
  }

  /** Cutting a zero run of two or more out of eight hextets gives text that reads back as them. */
  lemma CompressedRoundTrip(v: seq<Hextet>, idx: nat, n: nat)
    requires |v| == 8 && 2 <= n && idx + n <= 8 && forall i :: idx <= i < idx + n ==> v[i] == 0
    ensures 2 <= |JoinHex(v[..idx]) + "::" + JoinHex(v[idx + n..])| <= 39
    ensures ParseIp6(JoinHex(v[..idx]) + "::" + JoinHex(v[idx + n..])) == Some(v)
  {
    var pre, suf := v[..idx], v[idx + n..];
    JoinHexLength(pre);
    JoinHexLength(suf);
    ParseCompressed(pre, suf);
    RunSplits(v, idx, n);
  }

  /** Cutting a zero run out of v and putting as many zeros back gives v. */
  lemma RunSplits(v: seq<Hextet>, idx: nat, n: nat)
    requires idx + n <= |v| && forall i :: idx <= i < idx + n ==> v[i] == 0
    ensures v[..idx] + Zeros(|v| - |v[..idx]| - |v[idx + n..]|) + v[idx + n..] == v
  {
    var z := Zeros(n);
    assert |v| - |v[..idx]| - |v[idx + n..]| == n;
    forall k | 0 <= k < |v| ensures (v[..idx] + z + v[idx + n..])[k] == v[k] {
      if k < idx {
      } else if k < idx + n {
        assert (v[..idx] + z + v[idx + n..])[k] == z[k - idx];
      } else {
        assert (v[..idx] + z + v[idx + n..])[k] == v[idx + n..][k - idx - n];
      }
    }
  }

  /** The left-most of two equally long runs is compressed. */
  lemma Ip6ExampleTie()
    ensures Ip6Text([0, 1, 0, 0, 2, 0, 0, 3]) == "0:1::2:0:0:3"
  {
    var v: seq<Hextet> := [0, 1, 0, 0, 2, 0, 0, 3];
    TieRun();
    TieGroups();
    assert v[..2] == [0, 1] && v[4..] == [2, 0, 0, 3];
    TextOfRun(v, 2, 2);
    TieText();
  }

  lemma TieText()
    ensures "0:1" + "::" + "2:0:0:3" == "0:1::2:0:0:3"
  {
  }

  /** The canonical text when the chosen run is (idx, n) with n > 0. */
  lemma TextOfRun(v: seq<Hextet>, idx: nat, n: nat)
    requires ChosenRun(v) == (idx, n) && n > 0
    ensures Ip6Text(v) == JoinHex(v[..idx]) + "::" + JoinHex(v[idx + n..])
  {
  }

  lemma TieRun()
    ensures ChosenRun([0, 1, 0, 0, 2, 0, 0, 3]) == (2, 2)
  {
    var v: seq<Hextet> := [0, 1, 0, 0, 2, 0, 0, 3];
    assert ZeroLen(v, 0) == 1;
    assert ZeroLen(v, 2) == 2;
    assert ZeroLen(v, 5) == 2;
    assert ScanRuns(v, 5, 2, 2) == (2, 2);
    assert ScanRuns(v, 0, 8, 0) == (2, 2);
  }

  lemma TieGroups()
    ensures JoinHex([0, 1]) == "0:1" && JoinHex([2, 0, 0, 3]) == "2:0:0:3"
  {
    JoinHexSnoc([0], 1);
    assert [0, 1] == [0] + [1];
    JoinHexSnoc([2], 0);
    JoinHexSnoc([2, 0], 0);
    JoinHexSnoc([2, 0, 0], 3);
    assert [2, 0] == [2] + [0] && [2, 0, 0] == [2, 0] + [0] && [2, 0, 0, 3] == [2, 0, 0] + [3];
  }

  /** A run of two or more zero hextets exists exactly when the text contains "::"; otherwise all eight groups are written out. */
  lemma Ip6TextCompressesIff(v: seq<Hextet>)
    requires |v| == 8
    ensures FindDoubleColon(Ip6Text(v)).Some? <==> exists k, m :: IsZeroRun(v, k, m) && m >= 2
    ensures (forall k, m :: IsZeroRun(v, k, m) ==> m < 2) ==> Ip6Text(v) == JoinHex(v)
  {
    var (idx, n) := ChosenRun(v);
    if n == 0 {
      NoDoubleColonInJoinHex(v);
    } else {
      var pre, suf := v[..idx], v[idx + n..];
      JoinHexLength(pre);
      NoDoubleColonInJoinHex(pre);
      FirstDoubleColon(JoinHex(pre), JoinHex(suf));
      assert IsZeroRun(v, idx, n);
    }
  }

  /** A character in neither the separator nor any part is not in the joined text. */
  lemma {:induction false} JoinAvoids(parts: seq<string>, sep: char, c: char)
    requires c != sep && forall k :: 0 <= k < |parts| ==> c !in parts[k]
    ensures c !in Join(parts, sep)
    decreases |parts|
  {
    if |parts| > 1 {
      JoinAvoids(parts[..|parts| - 1], sep, c);
    }
  }

  /** Neither text contains a NUL, so the C string ip4_2a and ip6_2a leave ends right after it. */
  lemma AddressTextsAvoidNul(a: seq<Byte>, v: seq<Hextet>)
    requires |a| == 4
    ensures NUL !in Ip4Text(a) && NUL !in Ip6Text(v)
  {
    forall k | 0 <= k < 4 ensures NUL !in Dec(a[k]) {
      NumeralAvoids(a[k], 10, NUL);
    }
    forall w: seq<Hextet> ensures NUL !in JoinHex(w) {
      forall k | 0 <= k < |w| ensures NUL !in HexGroups(w)[k] {
        NumeralAvoids(w[k], 16, NUL);
      }
      JoinAvoids(HexGroups(w), ':', NUL);
    }
    var r := ChosenRun(v);
    if r.1 != 0 {
      assert NUL !in JoinHex(v[..r.0]) && NUL !in JoinHex(v[r.0 + r.1..]);
    }
  }

  /** 2001:db8:0:0:0:0:0:1 is written "2001:db8::1". */
  lemma Ip6ExampleDocumentation()
    ensures Ip6Text([0x2001, 0xdb8, 0, 0, 0, 0, 0, 1]) == "2001:db8::1"
  {
    var v: seq<Hextet> := [0x2001, 0xdb8, 0, 0, 0, 0, 0, 1];
    DocumentationRun();
    DocumentationHead();
    assert v[..2] == [0x2001, 0xdb8] && v[7..] == [1];
  }

  lemma DocumentationRun()
    ensures ChosenRun([0x2001, 0xdb8, 0, 0, 0, 0, 0, 1]) == (2, 5)
  {
    var v: seq<Hextet> := [0x2001, 0xdb8, 0, 0, 0, 0, 0, 1];
    assert ZeroLen(v, 7) == 0;
    assert ZeroLen(v, 2) == 5;
    assert ScanRuns(v, 0, 8, 0) == (2, 5);
  }

  lemma DocumentationHead()
    ensures JoinHex([0x2001, 0xdb8]) == "2001:db8"
  {
    assert Hex(0x2) == "2" && Hex(0x20) == "20" && Hex(0x200) == "200" && Hex(0x2001) == "2001";
    assert Hex(0xd) == "d" && Hex(0xdb) == "db" && Hex(0xdb8) == "db8";
    JoinHexSnoc([0x2001], 0xdb8);
    assert [0x2001, 0xdb8] == [0x2001] + [0xdb8];
  }

  /** A single zero hextet is never compressed. */
  lemma Ip6ExampleLoneZero()
    ensures Ip6Text([1, 0, 2, 3, 4, 5, 6, 7]) == "1:0:2:3:4:5:6:7"
  {
    LoneZeroRun();
    LoneZeroGroups();
  }

  lemma LoneZeroRun()
    ensures ChosenRun([1, 0, 2, 3, 4, 5, 6, 7]).1 == 0
  {
    var v: seq<Hextet> := [1, 0, 2, 3, 4, 5, 6, 7];
    assert ZeroLen(v, 1) == 1;
    assert ScanRuns(v, 0, 8, 0) == (8, 0);
  }

  lemma LoneZeroGroups()
    ensures JoinHex([1, 0, 2, 3, 4, 5, 6, 7]) == "1:0:2:3:4:5:6:7"
  {
    LoneZeroFirstGroups();
    assert JoinHex([1, 0, 2, 3, 4]) == "1:0:2:3:4" by {
      JoinHexSnoc([1, 0, 2, 3], 4);
      assert [1, 0, 2, 3, 4] == [1, 0, 2, 3] + [4];
    }
    assert JoinHex([1, 0, 2, 3, 4, 5]) == "1:0:2:3:4:5" by {
      JoinHexSnoc([1, 0, 2, 3, 4], 5);
      assert [1, 0, 2, 3, 4, 5] == [1, 0, 2, 3, 4] + [5];
    }
    LoneZeroLastGroups();
  }

  lemma LoneZeroLastGroups()
    requires JoinHex([1, 0, 2, 3, 4, 5]) == "1:0:2:3:4:5"
    ensures JoinHex([1, 0, 2, 3, 4, 5, 6, 7]) == "1:0:2:3:4:5:6:7"
  {
    assert JoinHex([1, 0, 2, 3, 4, 5, 6]) == "1:0:2:3:4:5:6" by {
      JoinHexSnoc([1, 0, 2, 3, 4, 5], 6);
      assert [1, 0, 2, 3, 4, 5, 6] == [1, 0, 2, 3, 4, 5] + [6];
    }
    JoinHexSnoc([1, 0, 2, 3, 4, 5, 6], 7);
    assert [1, 0, 2, 3, 4, 5, 6, 7] == [1, 0, 2, 3, 4, 5, 6] + [7];
  }

  lemma LoneZeroFirstGroups()
    ensures JoinHex([1, 0, 2, 3]) == "1:0:2:3"
  {
    JoinHexSnoc([1], 0);
    JoinHexSnoc([1, 0], 2);
    JoinHexSnoc([1, 0, 2], 3);
    assert [1, 0] == [1] + [0] && [1, 0, 2] == [1, 0] + [2] && [1, 0, 2, 3] == [1, 0, 2] + [3];
  }

  /** A run that reaches the last group is compressed too, leaving a trailing "::". */
  lemma Ip6ExampleTrailingRun()
    ensures Ip6Text([1, 0, 0, 0, 0, 0, 0, 0]) == "1::"
  {
    TrailingRun();
    var v: seq<Hextet> := [1, 0, 0, 0, 0, 0, 0, 0];
    assert v[..1] == [1] && v[8..] == [];
    assert JoinHex([1]) == "1";
  }

  lemma TrailingRun()
    ensures ChosenRun([1, 0, 0, 0, 0, 0, 0, 0]) == (1, 7)
  {
    var v: seq<Hextet> := [1, 0, 0, 0, 0, 0, 0, 0];
    assert ZeroLen(v, 1) == 7;
    assert ScanRuns(v, 0, 8, 0) == (1, 7);
  }

  /** The unspecified address is written "::". */
  lemma Ip6ExampleUnspecified()
    ensures Ip6Text(Zeros(8)) == "::"
  {
    var v := Zeros(8);
    assert ZeroLen(v, 8) == 0;
    assert ZeroLen(v, 0) == 8;
    assert ScanRuns(v, 0, 8, 0) == (0, 8);
  }

  // ---------------------------------------------------------------------------
  // The C routines, writing into a character buffer
  // ---------------------------------------------------------------------------

  /** buf holds s as a NUL-terminated string and is unchanged after the NUL. */
  ghost predicate HoldsCString(buf: seq<char>, before: seq<char>, s: string)
  {
    |buf| == |before| && |s| < |buf| && buf[..|s|] == s && buf[|s|] == NUL
    && buf[|s| + 1..] == before[|s| + 1..]
  }

  /** sprintf(&buf[j], ...) of a formatted text s: writes s and a NUL at j and returns |s|. */
  method Sprintf(buf: array<char>, j: nat, s: string) returns (n: nat)
    requires j + |s| < buf.Length
    modifies buf
    ensures n == |s|
    ensures buf[..j + n] == old(buf[..j]) + s && buf[j + n] == NUL
    ensures forall k :: j + n < k < buf.Length ==> buf[k] == old(buf[k])
  {
    forall k | 0 <= k < |s| {
      buf[j + k] := s[k];
    }
    buf[j + |s|] := NUL;
    n := |s|;
    assert buf[..j + n] == old(buf[..j]) + s;
  }

  /** ip_ascii[j++] = ':' : one colon at j, nothing else changed. */
  method PutColon(buf: array<char>, j: nat)
    requires j < buf.Length
    modifies buf
    ensures buf[..j + 1] == old(buf[..j]) + ":"
    ensures forall k :: 0 <= k < buf.Length && k != j ==> buf[k] == old(buf[k])
  {
    buf[j] := ':';
    assert buf[..j + 1] == old(buf[..j]) + ":";
  }

  /** ip4_2a: nothing is written into a buffer under 16 bytes; otherwise it holds the dotted text. */
  method Ip4ToAscii(addr: seq<Byte>, buf: array<char>)
    requires |addr| == 4
    modifies buf
    ensures buf.Length < 16 ==> buf[..] == old(buf[..])
    ensures buf.Length >= 16 ==> HoldsCString(buf[..], old(buf[..]), Ip4Text(addr))
  {
    if buf.Length < 16 {
      return;
    }
    Ip4TextRoundTrip(addr);
    var n := Sprintf(buf, 0, Ip4Text(addr));
  }

  /** Lines 111-132: the nested scan for the longest zero run, left-most on a tie. */
  method FindZeroRun(v16: array<Hextet>) returns (idx: nat, nmax: nat)
    requires v16.Length == 8
    ensures IsChosenRun(v16[..], idx, nmax)
  {
    ghost var v := v16[..];
    idx, nmax := 8, 0;
    var i := 0;
    while i < 8 - 1
      invariant 0 <= i <= 8
      invariant AtRunBoundary(v, i) && IsBestBefore(v, i, idx, nmax)
    {
      if v16[i] != 0 {
        i := i + 1;
        continue;
      }
      var j := i;
      while j < 8 - 1
        invariant i <= j <= 7
        invariant forall k :: i <= k <= j ==> v[k] == 0
      {
        if v16[j + 1] != 0 {
          break;
        }
        j := j + 1;
      }
      ZeroRunsFrom(v, i);
      assert ZeroLen(v, i) == j - i + 1;
      if i == j {
        i := i + 1;
        continue;
      }
      if j - i >= nmax {
        // Remember position and count
        nmax := j - i + 1;
        idx := i;
      }
      // Skip the zero hextets already seen
      i := j + 1;
    }
  }

  /** ip6_2a: nothing is written into a buffer under 40 bytes; otherwise it holds the canonical text. */
  method Ip6ToAscii(addr: seq<Byte>, buf: array<char>)
    requires |addr| == 16
    modifies buf
    ensures buf.Length < 40 ==> buf[..] == old(buf[..])
    ensures buf.Length >= 40 ==> HoldsCString(buf[..], old(buf[..]), Ip6Text(Hextets(addr)))
  {
    if buf.Length < 40 {
      return;
    }
    var v16 := ReadHextets(addr);
    ghost var v := v16[..];
    var idx, nmax := FindZeroRun(v16);
    ChosenRunUnique(v, idx, nmax, ChosenRun(v).0, ChosenRun(v).1);
    var i, j := PutHead(v16, idx, buf);
    if i < 8 {
      j := PutTail(v16, idx, nmax, buf, j);
    } else {
      assert v16[..8] == v;
    }
    assert buf[..j] == Ip6Text(v);
    // Make the string NUL-terminated
    buf[j] := NUL;
    assert buf[..j] == Ip6Text(v);
    assert buf[j + 1..] == old(buf[..])[j + 1..];
  }

  /** Lines 106-109: the sixteen bytes read as eight big-endian hextets. */
  method ReadHextets(addr: seq<Byte>) returns (v16: array<Hextet>)
    requires |addr| == 16
    ensures fresh(v16) && v16[..] == Hextets(addr)
  {
    v16 := new Hextet[8];
    var i := 0;
    while i < 16
      invariant 0 <= i <= 16 && i % 2 == 0
      invariant forall k :: 0 <= k < i / 2 ==> v16[k] == Hextets(addr)[k]
    {
      v16[i / 2] := (addr[i] as int) * 0x100 + addr[i + 1];
      i := i + 2;
    }
  }

  /** Lines 133-139: the groups before the zero run, separated by ':'. */
  method PutHead(v16: array<Hextet>, idx: nat, buf: array<char>) returns (i: nat, j: nat)
    requires v16.Length == 8 && idx <= 8 && buf.Length >= 40
    modifies buf
    ensures i == idx && j <= 5 * idx && (idx > 0 ==> j < 5 * idx)
    ensures buf[..j] == JoinHex(v16[..idx])
    ensures forall k :: j < k < buf.Length ==> buf[k] == old(buf[k])
  {
    ghost var v := v16[..];
    j, i := 0, 0;
    while i < idx
      invariant 0 <= i <= idx && j <= 5 * i
      invariant i == 0 || i < idx  // the loop is left by the break
      invariant buf[..j] == JoinHex(v[..i]) + (if i == 0 then "" else ":")
      invariant forall k :: j <= k < buf.Length ==> buf[k] == old(buf[k])
    {
      ghost var w, x := v[..i], v[i];
      HexAvoidsColon(v16[i]);
      JoinHexSnoc(w, x);
      assert v[..i + 1] == w + [x];
      var n := Sprintf(buf, j, Hex(v16[i]));
      assert buf[..j + n] == JoinHex(w + [x]);
      j := j + n;
      i := i + 1;
      if i == idx {
        break;
      }
      PutColon(buf, j);
      j := j + 1;
    }
    JoinHexLength(v[..idx]);
  }

  /** The text after the groups before the zero run, once the groups w after it are written: ':' then ":%x" per group. */
  function TailSoFar(pre: string, w: seq<Hextet>): string
  {
    pre + ":" + (if w == [] then "" else ":" + JoinHex(w))
  }

  lemma TailStep(pre: string, w: seq<Hextet>, x: Hextet)
    ensures TailSoFar(pre, w) + (":" + Hex(x)) == TailSoFar(pre, w + [x])
  {
    JoinHexSnoc(w, x);
    assert TailSoFar(pre, w) + (":" + Hex(x)) == TailSoFar(pre, w) + ":" + Hex(x);
  }

  /** The text so far ends in ':' exactly when no group follows the run, and the extra ':' then completes "::". */
  lemma TailEnd(pre: string, w: seq<Hextet>)
    ensures |TailSoFar(pre, w)| >= 1
    ensures TailSoFar(pre, w)[|TailSoFar(pre, w)| - 1] == ':' <==> w == []
    ensures w == [] ==> TailSoFar(pre, w) + ":" == pre + "::" + JoinHex(w)
    ensures w != [] ==> TailSoFar(pre, w) == pre + "::" + JoinHex(w)
  {
    if w != [] {
      var t := JoinHex(w);
      JoinHexLength(w);
      NoDoubleColonInJoinHex(w);
      assert TailSoFar(pre, w)[|TailSoFar(pre, w)| - 1] == t[|t| - 1];
    }
  }

  /** Lines 140-149: ':' and then ":%x" per group after the run, and one more ':' if that leaves a trailing colon. */
  method PutTail(v16: array<Hextet>, idx: nat, nmax: nat, buf: array<char>, j0: nat) returns (j: nat)
    requires v16.Length == 8 && 2 <= nmax && idx + nmax <= 8 && buf.Length >= 40
    requires j0 <= 5 * idx && j0 <= buf.Length && buf[..j0] == JoinHex(v16[..idx])
    modifies buf
    ensures j < 40
    ensures buf[..j] == JoinHex(v16[..idx]) + "::" + JoinHex(v16[idx + nmax..])
    ensures forall k :: j < k < buf.Length ==> buf[k] == old(buf[k])
  {
    PutColon(buf, j0);
    j := PutGroupsAfterRun(v16, idx, nmax, buf, j0 + 1);
    TailEnd(JoinHex(v16[..idx]), v16[idx + nmax..]);
    if buf[j - 1] == ':' {
      PutColon(buf, j);
      j := j + 1;
    }
  }

  /** Lines 143-145: ":%x" for each group after the zero run. */
  method PutGroupsAfterRun(v16: array<Hextet>, idx: nat, nmax: nat, buf: array<char>, j0: nat) returns (j: nat)
    requires v16.Length == 8 && 2 <= nmax && idx + nmax <= 8 && buf.Length >= 40
    requires 1 <= j0 <= 5 * idx + 1 && buf[..j0] == TailSoFar(JoinHex(v16[..idx]), [])
    modifies buf
    ensures 1 <= j <= 5 * (8 - nmax) + 1
    ensures buf[..j] == TailSoFar(JoinHex(v16[..idx]), v16[idx + nmax..])
    ensures forall k :: j < k < buf.Length ==> buf[k] == old(buf[k])
  {
    ghost var v := v16[..];
    ghost var pre := JoinHex(v[..idx]);
    j := j0;
    var i := idx + nmax;
    while i < 8
      invariant idx + nmax <= i <= 8 && 1 <= j <= 5 * (i - nmax) + 1
      invariant buf[..j] == TailSoFar(pre, v[idx + nmax..i])
      invariant forall k :: j < k < buf.Length ==> buf[k] == old(buf[k])
    {
      ghost var w, x := v[idx + nmax..i], v[i];
      HexLength(v16[i]);
      TailStep(pre, w, x);
      assert v[idx + nmax..i + 1] == w + [x];
      var n := Sprintf(buf, j, ":" + Hex(v16[i]));
      assert buf[..j + n] == TailSoFar(pre, w + [x]);
      j := j + n;
      i := i + 1;
    }
    assert v[idx + nmax..8] == v[idx + nmax..];
  }
}
