// Comparing versions (core/sync_daemon.py): the first three parts, as numbers.
module Versions {
  import opened Text
  import opened Wrappers

  datatype Version = Version(major: int, minor: int, patch: int)

  const ZERO := Version(0, 0, 0)

  function BeforeDash(s: string): string {
    if s == "" || s[0] == '-' then "" else [s[0]] + BeforeDash(s[1..])
  }

  function SplitDots(s: string): (r: seq<string>)
    ensures r != []
  {
    if s == "" then [""]
    else
      var rest := SplitDots(s[1..]);
      if s[0] == '.' then [""] + rest else [[s[0]] + rest[0]] + rest[1..]
  }

  predicate IsDigit(c: char) { '0' <= c <= '9' }

  // The zeros of the other decimal digits int() reads (Unicode 14, category Nd); each is followed by
  // its one to nine.
  const OTHER_ZEROS: seq<int> := [
    0x660, 0x6F0, 0x7C0, 0x966, 0x9E6, 0xA66, 0xAE6, 0xB66, 0xBE6, 0xC66, 0xCE6,
    0xD66, 0xDE6, 0xE50, 0xED0, 0xF20, 0x1040, 0x1090, 0x17E0, 0x1810, 0x1946, 0x19D0,
    0x1A80, 0x1A90, 0x1B50, 0x1BB0, 0x1C40, 0x1C50, 0xA620, 0xA8D0, 0xA900, 0xA9D0, 0xA9F0,
    0xAA50, 0xABF0, 0xFF10, 0x104A0, 0x10D30, 0x11066, 0x110F0, 0x11136, 0x111D0, 0x112F0, 0x11450,
    0x114D0, 0x11650, 0x116C0, 0x11730, 0x118E0, 0x11950, 0x11C50, 0x11D50, 0x11DA0, 0x16A60, 0x16AC0,
    0x16B50, 0x1D7CE, 0x1D7D8, 0x1D7E2, 0x1D7EC, 0x1D7F6, 0x1E140, 0x1E2F0, 0x1E950, 0x1FBF0
  ]

  function DigitFrom(zeros: seq<int>, n: int): Option<nat> {
    if zeros == [] then None
    else if zeros[0] <= n < zeros[0] + 10 then Some(n - zeros[0])
    else DigitFrom(zeros[1..], n)
  }

  // The value of a decimal digit of any script.
  function DigitOf(c: char): Option<nat> {
    if IsDigit(c) then Some(c as int - '0' as int) else DigitFrom(OTHER_ZEROS, c as int)
  }

  // Digits with single underscores between them, as int() takes them.
  predicate IsNumeral(s: string)
    decreases |s|
  {
    s != "" && DigitOf(s[0]).Some? &&
    (|s| == 1 || (if s[1] == '_' then IsNumeral(s[2..]) else IsNumeral(s[1..])))
  }

  function NumeralValue(s: string): nat {
    if s == "" then 0
    else
      match DigitOf(s[|s| - 1])
      case Some(d) => 10 * NumeralValue(s[..|s| - 1]) + d
      case None => NumeralValue(s[..|s| - 1])
  }

  function Numeral(s: string): Option<nat> {
    if IsNumeral(s) then Some(NumeralValue(s)) else None
  }

  // One sign may stand in front.
  function Signed(value: string -> Option<nat>, s: string): Option<int> {
    match value(s)
    case Some(n) => Some(n)
    case None =>
      if s != "" && s[0] == '+' then value(s[1..])
      else if s != "" && s[0] == '-' && value(s[1..]).Some? then (var n: int := value(s[1..]).value; Some(-n))
      else None
  }

  // int(text), None where it raises.
  function ParseInt(text: string): Option<int> { Signed(Numeral, Strip(text)) }

  lemma SignedExactly(value: string -> Option<nat>, s: string, n: int)
    requires n >= 0 && value(s) == Some(n)
    ensures Signed(value, s) == Some(n)
    ensures value("+" + s).None? ==> Signed(value, "+" + s) == Some(n)
    ensures value("-" + s).None? ==> Signed(value, "-" + s) == Some(-n)
  {
    assert ("+" + s)[1..] == s && ("-" + s)[1..] == s;
  }

  function PartValue(part: string): int {
    match ParseInt(part)
    case Some(n) => n
    case None => 0
  }

  // The first three parts, missing ones as zero.
  function FromParts(parts: seq<string>, value: string -> int): Version {
    Version(if |parts| > 0 then value(parts[0]) else 0,
            if |parts| > 1 then value(parts[1]) else 0,
            if |parts| > 2 then value(parts[2]) else 0)
  }

  function Parse(v: Option<string>): Version {
    if v.None? || v.value == "" then ZERO
    else
      var parts := SplitDots(BeforeDash(Strip(v.value)));
      FromParts(parts, PartValue)
  }

  // _parse_version: at most four parts are read, three are kept.
  method ParseVersion(v: Option<string>) returns (r: Version)
    ensures r == Parse(v)
  {
    if v.None? || v.value == "" { return ZERO; }
    var parts := SplitDots(BeforeDash(Strip(v.value)));
    r := ReadParts(parts, PartValue);
  }

  method ReadParts(parts: seq<string>, value: string -> int) returns (r: Version)
    ensures r == FromParts(parts, value)
  {
    var out: seq<int> := [];
    var k := 0;
    while k < |parts| && k < 4
      invariant k == |out| <= |parts| && k <= 4
      invariant forall j: nat :: j < k ==> out[j] == value(parts[j])
    {
      out := out + [value(parts[k])];
      k := k + 1;
    }
    while |out| < 3
      invariant |parts| <= |out| || |out| >= 3
      invariant forall j: nat :: j < |out| && j < 3 ==> out[j] == if j < |parts| then value(parts[j]) else 0
    {
      out := out + [0];
    }
    r := Version(out[0], out[1], out[2]);
  }

  predicate Above(a: Version, b: Version) {
    || a.major > b.major
    || (a.major == b.major && (a.minor > b.minor || (a.minor == b.minor && a.patch > b.patch)))
  }

  function Order(remote: Version, here: Version): int {
    if Above(remote, here) then 1 else if Above(here, remote) then -1 else 0
  }

  function Compare(remote: Option<string>, here: Option<string>): int {
    Order(Parse(remote), Parse(here))
  }

  lemma OrderIsPreorder(a: Version, b: Version, c: Version)
    ensures Order(a, b) == -Order(b, a)
    ensures Order(a, b) >= 0 && Order(b, c) >= 0 ==> Order(a, c) >= 0
    ensures Order(a, b) > 0 && Order(b, c) >= 0 ==> Order(a, c) > 0
    ensures Order(a, b) == 0 <==> a == b
  {
  }

  // Version comparison is a total preorder; strings compare equal exactly when their first three
  // components do.
  lemma CompareIsPreorder(a: Option<string>, b: Option<string>, c: Option<string>)
    ensures Compare(a, b) == -Compare(b, a)
    ensures Compare(a, b) >= 0 && Compare(b, c) >= 0 ==> Compare(a, c) >= 0
    ensures Compare(a, b) > 0 && Compare(b, c) >= 0 ==> Compare(a, c) > 0
    ensures Compare(a, b) == 0 <==> Parse(a) == Parse(b)
  {
    OrderIsPreorder(Parse(a), Parse(b), Parse(c));
  }

  // n in decimal.
  function Digits(n: nat): string {
    if n < 10 then ['0' + n as char] else Digits(n / 10) + ['0' + (n % 10) as char]
  }

  predicate AllDigits(s: string) {
    forall k :: 0 <= k < |s| ==> IsDigit(s[k])
  }

  // n in decimal reads as n.
  lemma {:induction false} DigitsRead(n: nat)
    ensures Digits(n) != "" && AllDigits(Digits(n)) && NumeralValue(Digits(n)) == n
  {
    if n >= 10 {
      DigitsRead(n / 10);
      var s := Digits(n);
      assert s[..|s| - 1] == Digits(n / 10);
    } else {
      assert Digits(n)[..0] == "";
    }
  }

  lemma {:induction false} AllDigitsIsNumeral(s: string)
    requires s != "" && AllDigits(s)
    ensures IsNumeral(s)
    decreases |s|
  {
    if |s| > 1 {
      assert IsDigit(s[1]);
      AllDigitsIsNumeral(s[1..]);
    }
  }

  lemma DigitsParse(s: string)
    requires s != "" && AllDigits(s)
    ensures PartValue(s) == NumeralValue(s)
  {
    AllDigitsIsNumeral(s);
    StripDigits(s);
  }

  lemma StripDigits(s: string)
    requires AllDigits(s)
    ensures Strip(s) == s
  {
  }

  lemma {:induction false} SplitAtDot(part: string, rest: string)
    requires AllDigits(part)
    ensures SplitDots(part + "." + rest) == [part] + SplitDots(rest)
    ensures SplitDots(part) == [part]
  {
    var s := part + "." + rest;
    if part == "" {
      assert s[1..] == rest;
    } else {
      assert IsDigit(part[0]);
      SplitAtDot(part[1..], rest);
      assert s[1..] == part[1..] + "." + rest && part == [part[0]] + part[1..];
    }
  }

  // Digits and dots, as a version without suffix has them.
  predicate DigitsAndDots(s: string) {
    forall k :: 0 <= k < |s| ==> IsDigit(s[k]) || s[k] == '.'
  }

  lemma {:induction false} CutAtDash(s: string, suffix: string)
    requires DigitsAndDots(s) && (suffix == "" || suffix[0] == '-')
    ensures BeforeDash(s + suffix) == s
  {
    if s == "" {
      assert s + suffix == suffix;
    } else {
      assert IsDigit(s[0]) || s[0] == '.';
      assert (s + suffix)[1..] == s[1..] + suffix;
      CutAtDash(s[1..], suffix);
      assert s == [s[0]] + s[1..];
    }
  }

  lemma StripRightKeeps(space: CharClass, t: string, n: nat)
    requires 0 < n <= |t| && !space(t[n - 1])
    ensures |StripRight(space, t)| >= n
  {
  }

  // Stripping can only shorten the suffix.
  lemma StripKeepsBase(space: CharClass, s: string, suffix: string) returns (rest: string)
    requires s != "" && !space(s[0]) && !space(s[|s| - 1]) && (suffix == "" || suffix[0] == '-')
    ensures StripOf(space, s + suffix) == s + rest && (rest == "" || rest[0] == '-')
  {
    var t := s + suffix;
    assert t[0] == s[0] && t[|s| - 1] == s[|s| - 1];
    assert StripLeft(space, t) == t;
    StripRightKeeps(space, t, |s|);
    var n := |StripRight(space, t)|;
    rest := suffix[..n - |s|];
    assert t[..n] == s + rest;
  }

  lemma DottedDigits(a: string, b: string, c: string)
    requires AllDigits(a) && AllDigits(b) && AllDigits(c)
    ensures DigitsAndDots(a + "." + (b + "." + c))
  {
  }

  // Three strings of digits with dots between them, and whatever follows a dash.
  predicate Dotted(text: string, x: string, y: string, z: string, suffix: string) {
    && x != "" && y != "" && z != "" && AllDigits(x) && AllDigits(y) && AllDigits(z)
    && (suffix == "" || suffix[0] == '-')
    && text == x + "." + (y + "." + z) + suffix
  }

  // "1.2.3" and "1.2.3-beta" mean (1, 2, 3), whatever the numbers and the suffix.
  lemma RenderedVersionParses(text: string, x: string, y: string, z: string, suffix: string)
    requires Dotted(text, x, y, z, suffix)
    ensures Parse(Some(text)) == Version(NumeralValue(x), NumeralValue(y), NumeralValue(z))
  {
    SplitRendered(IsSpace, text, x, y, z, suffix);
    DottedNotEmpty(text, x, y, z, suffix);
    ParsedAsParts(text, [x, y, z]);
    ReadThree(x, y, z);
  }

  lemma DottedNotEmpty(text: string, x: string, y: string, z: string, suffix: string)
    requires Dotted(text, x, y, z, suffix)
    ensures text != ""
  {
    assert |text| >= |x|;
  }

  lemma ParsedAsParts(text: string, parts: seq<string>)
    requires text != "" && SplitDots(BeforeDash(Strip(text))) == parts
    ensures Parse(Some(text)) == FromParts(parts, PartValue)
  {
  }

  lemma ReadThree(x: string, y: string, z: string)
    requires x != "" && y != "" && z != "" && AllDigits(x) && AllDigits(y) && AllDigits(z)
    ensures FromParts([x, y, z], PartValue) == Version(NumeralValue(x), NumeralValue(y), NumeralValue(z))
  {
    DigitsParse(x);
    DigitsParse(y);
    DigitsParse(z);
  }

  lemma SplitRendered(space: CharClass, text: string, x: string, y: string, z: string, suffix: string)
    requires Dotted(text, x, y, z, suffix) && forall c :: IsDigit(c) ==> !space(c)
    ensures SplitDots(BeforeDash(StripOf(space, text))) == [x, y, z]
  {
    var base := x + "." + (y + "." + z);
    assert base[0] == x[0] && base[|base| - 1] == z[|z| - 1];
    var rest := StripKeepsBase(space, base, suffix);
    DottedDigits(x, y, z);
    CutAtDash(base, rest);
    SplitThree(x, y, z);
  }

  lemma SplitThree(x: string, y: string, z: string)
    requires AllDigits(x) && AllDigits(y) && AllDigits(z)
    ensures SplitDots(x + "." + (y + "." + z)) == [x, y, z]
  {
    SplitAtDot(x, y + "." + z);
    SplitAtDot(y, z);
    SplitAtDot(z, "");
    assert [x] + ([y] + [z]) == [x, y, z];
  }

  // The text is the version in decimal, with whatever follows a dash.
  predicate Renders(text: string, v: Version, suffix: string) {
    && v.major >= 0 && v.minor >= 0 && v.patch >= 0
    && Dotted(text, Digits(v.major), Digits(v.minor), Digits(v.patch), suffix)
  }

  lemma RenderedMeans(text: string, v: Version, suffix: string)
    requires Renders(text, v, suffix)
    ensures Parse(Some(text)) == v
  {
    DigitsRead(v.major);
    DigitsRead(v.minor);
    DigitsRead(v.patch);
    RenderedVersionParses(text, Digits(v.major), Digits(v.minor), Digits(v.patch), suffix);
  }

  // Rendered versions compare as their numbers do, the first difference deciding, whatever the suffixes.
  lemma RenderedCompare(s: string, v: Version, suffix: string, t: string, w: Version, suffix': string)
    requires Renders(s, v, suffix) && Renders(t, w, suffix')
    ensures Compare(Some(s), Some(t))
            == if v.major != w.major then (if v.major > w.major then 1 else -1)
               else if v.minor != w.minor then (if v.minor > w.minor then 1 else -1)
               else if v.patch != w.patch then (if v.patch > w.patch then 1 else -1)
               else 0
  {
    RenderedMeans(s, v, suffix);
    RenderedMeans(t, w, suffix');
    OrderExact(v, w);
  }

  lemma OrderExact(v: Version, w: Version)
    ensures Order(v, w)
            == if v.major != w.major then (if v.major > w.major then 1 else -1)
               else if v.minor != w.minor then (if v.minor > w.minor then 1 else -1)
               else if v.patch != w.patch then (if v.patch > w.patch then 1 else -1)
               else 0
  {
  }

  // A numeral holds nothing but digits and underscores.
  lemma {:induction false} NumeralChars(s: string, k: nat)
    requires IsNumeral(s) && k < |s|
    ensures s[k] == '_' || DigitOf(s[k]).Some?
    decreases |s|
  {
    if k > 0 && s[k] != '_' {
      if s[1] == '_' { NumeralChars(s[2..], k - 2); } else { NumeralChars(s[1..], k - 1); }
    }
  }

  lemma NotNumeral(s: string, k: nat)
    requires k < |s| && s[k] != '_' && DigitOf(s[k]).None?
    ensures Numeral(s).None?
  {
    if IsNumeral(s) { NumeralChars(s, k); }
  }

  // So a part with any other character in it, signs and blanks around it aside, counts as zero.
  lemma UnreadablePart(part: string, k: nat)
    requires var s := Strip(part); 0 < k < |s| && s[k] != '_' && DigitOf(s[k]).None?
    ensures PartValue(part) == 0
  {
    NotNumeral(Strip(part), k);
    NotNumeral(Strip(part)[1..], k - 1);
  }
}
