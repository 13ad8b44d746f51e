// Python string operations used by several components.
module Text {

  // The characters str.strip() removes: Unicode white space.
  predicate IsSpace(c: char) {
    var n := c as int;
    || 9 <= n <= 13 || 28 <= n <= 32 || n == 0x85 || n == 0xA0 || n == 0x1680
    || 0x2000 <= n <= 0x200A || n == 0x2028 || n == 0x2029 || n == 0x202F || n == 0x205F || n == 0x3000
  }

  // One by one: tab to carriage return, the four separators, the blanks of all widths, the line breaks.
  lemma SpacesExactly(c: char)
    ensures IsSpace(c) <==> c as int in [9, 10, 11, 12, 13, 28, 29, 30, 31, 32, 0x85, 0xA0, 0x1680, 0x2000, 0x2001, 0x2002,
                                         0x2003, 0x2004, 0x2005, 0x2006, 0x2007, 0x2008, 0x2009, 0x200A, 0x2028, 0x2029,
                                         0x202F, 0x205F, 0x3000]
  {
  }

  // Stripping, for any class of characters.
  type CharClass = char -> bool

  function StripLeft(space: CharClass, s: string): (r: string)
    ensures r == "" || !space(r[0])
    ensures |r| <= |s| && r == s[|s| - |r|..]
    ensures forall k :: 0 <= k < |s| - |r| ==> space(s[k])
  {
    if s != "" && space(s[0]) then StripLeft(space, s[1..]) else s
  }

  function StripRight(space: CharClass, s: string): (r: string)
    ensures r == "" || !space(r[|r| - 1])
    ensures |r| <= |s| && r == s[..|r|]
    ensures forall k :: |r| <= k < |s| ==> space(s[k])
  {
    if s != "" && space(s[|s| - 1]) then StripRight(space, s[..|s| - 1]) else s
  }

  function StripOf(space: CharClass, s: string): string { StripRight(space, StripLeft(space, s)) }

  function Strip(s: string): string { StripOf(IsSpace, s) }

  predicate Without(space: CharClass, s: string) {
    forall k :: 0 <= k < |s| ==> !space(s[k])
  }

  // Stripping stripped text changes nothing.
  lemma StripTwice(space: CharClass, s: string)
    ensures StripOf(space, StripOf(space, s)) == StripOf(space, s)
  {
  }

  // The first k characters are of the class.
  predicate OnlyBefore(space: CharClass, s: string, k: nat)
    requires k <= |s|
  {
    forall j :: 0 <= j < k ==> space(s[j])
  }

  // Stripping takes characters of the class off both ends, and all of them.
  lemma StripExact(space: CharClass, s: string) returns (left: string, right: string)
    ensures s == left + (StripOf(space, s) + right)
    ensures OnlyBefore(space, left, |left|) && OnlyBefore(space, right, |right|)
    ensures var r := StripOf(space, s); r != "" ==> !space(r[0]) && !space(r[|r| - 1])
  {
    left := StripLeftExact(space, s);
    right := StripRightExact(space, StripLeft(space, s));
  }

  lemma StripLeftExact(space: CharClass, s: string) returns (left: string)
    ensures s == left + StripLeft(space, s) && OnlyBefore(space, left, |left|)
  {
    left := s[..|s| - |StripLeft(space, s)|];
  }

  lemma StripRightExact(space: CharClass, t: string) returns (right: string)
    ensures t == StripRight(space, t) + right && OnlyBefore(space, right, |right|)
    ensures var r := StripRight(space, t); r != "" ==> r[0] == t[0] && !space(r[|r| - 1])
  {
    var n := |StripRight(space, t)|;
    right := t[n..];
    forall j | 0 <= j < |right|
      ensures space(right[j])
    {
      assert right[j] == t[n + j];
    }
  }

  // "".join(pieces)
  function Concat(pieces: seq<string>): string {
    if pieces == [] then "" else pieces[0] + Concat(pieces[1..])
  }
}
