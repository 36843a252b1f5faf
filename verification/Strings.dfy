/** Stripping and searching strings, as several parsers do. */
module Strings {

  /** Which characters count as blank. */
  type Spaces = char -> bool

  function StripLeft(isSpace: Spaces, s: string): string {
    if s != "" && isSpace(s[0]) then StripLeft(isSpace, s[1..]) else s
  }

  function StripRight(isSpace: Spaces, s: string): string {
    if s != "" && isSpace(s[|s| - 1]) then StripRight(isSpace, s[..|s| - 1]) else s
  }

  function Strip(isSpace: Spaces, s: string): string { StripRight(isSpace, StripLeft(isSpace, s)) }

  function IndexOf(s: string, c: char): (r: nat)
    ensures r <= |s| && (r < |s| ==> s[r] == c) && c !in s[..r]
  {
    if s == "" || s[0] == c then 0 else 1 + IndexOf(s[1..], c)
  }

  ghost predicate AllSpaces(isSpace: Spaces, s: string) { forall i | 0 <= i < |s| :: isSpace(s[i]) }

  lemma {:induction false} StripLeftAppend(isSpace: Spaces, s: string, rest: string)
    ensures StripLeft(isSpace, s) == "" ==> StripLeft(isSpace, s + rest) == StripLeft(isSpace, rest)
    ensures StripLeft(isSpace, s) != "" ==> StripLeft(isSpace, s + rest) == StripLeft(isSpace, s) + rest
  {
    if s == "" {
      assert s + rest == rest;
    } else {
      assert (s + rest)[1..] == s[1..] + rest;
      StripLeftAppend(isSpace, s[1..], rest);
    }
  }

  lemma {:induction false} StripLeftSpaces(isSpace: Spaces, s: string)
    ensures AllSpaces(isSpace, s) <==> StripLeft(isSpace, s) == ""
    ensures var r := StripLeft(isSpace, s); r == "" || !isSpace(r[0])
  {
    if s != "" { StripLeftSpaces(isSpace, s[1..]); }
  }

  lemma {:induction false} StripRightTail(isSpace: Spaces, s: string) returns (tail: string)
    ensures s == StripRight(isSpace, s) + tail && AllSpaces(isSpace, tail)
    ensures var r := StripRight(isSpace, s); r == "" || !isSpace(r[|r| - 1])
  {
    if s != "" && isSpace(s[|s| - 1]) {
      tail := StripRightTail(isSpace, s[..|s| - 1]);
      tail := tail + [s[|s| - 1]];
    } else {
      tail := "";
    }
  }

  lemma {:induction false} StripRightAppend(isSpace: Spaces, core: string, post: string)
    requires AllSpaces(isSpace, post) && core != "" && !isSpace(core[|core| - 1])
    ensures StripRight(isSpace, core + post) == core
  {
    if post == "" {
      assert core + post == core;
    } else {
      assert (core + post)[..|core + post| - 1] == core + post[..|post| - 1];
      StripRightAppend(isSpace, core, post[..|post| - 1]);
    }
  }

  /** Stripping removes what is blank around a text that neither starts nor ends blank. */
  lemma StripExact(isSpace: Spaces, pre: string, core: string, post: string)
    requires AllSpaces(isSpace, pre) && AllSpaces(isSpace, post)
    requires core != "" && !isSpace(core[0]) && !isSpace(core[|core| - 1])
    ensures Strip(isSpace, pre + core + post) == core
  {
    assert pre + core + post == pre + (core + post);
    StripLeftSpaces(isSpace, pre);
    StripLeftAppend(isSpace, pre, core + post);
    StripRightAppend(isSpace, core, post);
  }
}
