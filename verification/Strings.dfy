/** Text helpers of the Go library: prefixes, indexes and trimming. */
module Strings {
  predicate HasPrefix(s: string, p: string) {
    |p| <= |s| && s[..|p|] == p
  }

  /** The place of the first c, or -1. */
  function IndexOf(s: string, c: char): (i: int)
    ensures -1 <= i < |s|
  {
    if s == "" then -1
    else if s[0] == c then 0
    else
      var i := IndexOf(s[1..], c);
      if i < 0 then -1 else i + 1
  }

  predicate IsBlank(c: char) {
    c == ' ' || c == '\t' || c == '\n' || c == '\r'
  }

  /** The white space of the Latin-1 range. */
  predicate IsSpace(c: char) {
    9 <= c as int <= 13 || c as int == 0x20 || c as int == 0x85 || c as int == 0xA0
  }

  /** What is left without the cut characters in front. */
  function TrimLeft(s: string, cut: char -> bool): (r: string)
    ensures |r| <= |s| && r == s[|s| - |r|..] && (r != "" ==> !cut(r[0]))
    ensures forall i :: 0 <= i < |s| - |r| ==> cut(s[i])
  {
    if s != "" && cut(s[0]) then TrimLeft(s[1..], cut) else s
  }

  /** What is left without the cut characters at the end. */
  function TrimRight(s: string, cut: char -> bool): (r: string)
    ensures |r| <= |s| && r == s[..|r|] && (r != "" ==> !cut(r[|r| - 1]))
    ensures forall i :: |r| <= i < |s| ==> cut(s[i])
  {
    if s != "" && cut(s[|s| - 1]) then TrimRight(s[..|s| - 1], cut) else s
  }

  function TrimSpace(s: string): string {
    TrimRight(TrimLeft(s, IsSpace), IsSpace)
  }

  /** Tab, line feed, vertical tab, form feed, carriage return, space, next line and no-break space, by code. */
  ghost predicate SpaceCode(n: int) {
    n == 9 || n == 10 || n == 11 || n == 12 || n == 13 || n == 0x20 || n == 0x85 || n == 0xA0
  }

  /** Trimming takes away white space at both ends, all of it, and nothing else. */
  lemma TrimSpaceExact(s: string) returns (n: nat)
    ensures n + |TrimSpace(s)| <= |s| && TrimSpace(s) == s[n..n + |TrimSpace(s)|]
    ensures forall i :: 0 <= i < n || n + |TrimSpace(s)| <= i < |s| ==> SpaceCode(s[i] as int)
    ensures var r := TrimSpace(s); r != "" ==> !SpaceCode(r[0] as int) && !SpaceCode(r[|r| - 1] as int)
  {
    SpacesAre();
    hide TrimLeft, TrimRight, IsSpace, SpaceCode;
    var t := TrimLeft(s, IsSpace);
    var r := TrimRight(t, IsSpace);
    n := |s| - |t|;
    assert r == s[n..n + |r|];
    forall i | n + |r| <= i < |s| ensures SpaceCode(s[i] as int) {
      assert t[i - n] == s[i];
    }
  }

  lemma SpacesAre()
    ensures forall c: char :: IsSpace(c) <==> SpaceCode(c as int)
  {
  }
}
