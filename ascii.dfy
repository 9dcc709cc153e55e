/** Character-level helpers shared by the highlighter and the keyword store:
    the regular-expression word characters, JavaScript's `trim`, and an
    ASCII-only `toLowerCase`. */
module Ascii {

  /** `\w` of a JavaScript regular expression without the `u` flag. */
  predicate IsWordChar(c: char) {
    ('a' <= c <= 'z') || ('A' <= c <= 'Z') || ('0' <= c <= '9') || c == '_'
  }

  /** The characters `String.prototype.trim` removes: WhiteSpace and
      LineTerminator of the ECMAScript grammar. */
  const TrimSpaces: set<char> :=
    {'\t', '\n', '\U{000B}', '\U{000C}', '\r', ' ', '\U{00A0}', '\U{1680}',
     '\U{2000}', '\U{2001}', '\U{2002}', '\U{2003}', '\U{2004}', '\U{2005}',
     '\U{2006}', '\U{2007}', '\U{2008}', '\U{2009}', '\U{200A}',
     '\U{2028}', '\U{2029}', '\U{202F}', '\U{205F}', '\U{3000}', '\U{FEFF}'}

  predicate IsTrimSpace(c: char) {
    c in TrimSpaces
  }

  function LowerChar(c: char): (r: char)
    ensures 'A' <= c <= 'Z' ==> 'a' <= r <= 'z' && r as int - 'a' as int == c as int - 'A' as int
    ensures !('A' <= c <= 'Z') ==> r == c
    ensures IsWordChar(r) == IsWordChar(c)
  {
    if 'A' <= c <= 'Z' then (c as int + 32) as char else c
  }

  /** `toLowerCase` restricted to ASCII letters. */
  function Lower(s: string): (r: string)
    ensures |r| == |s|
    ensures forall i :: 0 <= i < |s| ==> r[i] == LowerChar(s[i])
  {
    seq(|s|, i requires 0 <= i < |s| => LowerChar(s[i]))
  }

  /** `a.toLowerCase() === b.toLowerCase()`. */
  predicate EqualsIgnoreCase(a: string, b: string) {
    Lower(a) == Lower(b)
  }

  /** The first index at or after `i` that does not hold white space, or
      `|s|`. */
  function SkipSpace(s: string, i: nat): (j: nat)
    requires i <= |s|
    ensures i <= j <= |s|
    ensures forall k :: i <= k < j ==> IsTrimSpace(s[k])
    ensures j < |s| ==> !IsTrimSpace(s[j])
    decreases |s| - i
  {
    if i < |s| && IsTrimSpace(s[i]) then SkipSpace(s, i + 1) else i
  }

  /** Going back from `j`, no further than `lo`: the index just past the
      last character before `j` that is not white space. */
  function SkipSpaceBack(s: string, lo: nat, j: nat): (e: nat)
    requires lo <= j <= |s|
    ensures lo <= e <= j
    ensures forall k :: e <= k < j ==> IsTrimSpace(s[k])
    ensures lo < e ==> !IsTrimSpace(s[e - 1])
    decreases j
  {
    if lo < j && IsTrimSpace(s[j - 1]) then SkipSpaceBack(s, lo, j - 1) else j
  }

  /** `String.prototype.trim`: the result is the slice of `s` between its
      leading and its trailing white space; everything cut off on either
      side is white space, and the result neither starts nor ends with
      white space. */
  function Trim(s: string): (r: string)
    ensures var n := SkipSpace(s, 0);
      n + |r| <= |s| && r == s[n..n + |r|] &&
      (forall k :: 0 <= k < n ==> IsTrimSpace(s[k])) &&
      (forall k :: n + |r| <= k < |s| ==> IsTrimSpace(s[k]))
    ensures r == [] || (!IsTrimSpace(r[0]) && !IsTrimSpace(r[|r| - 1]))
  {
    var n := SkipSpace(s, 0);
    var e := SkipSpaceBack(s, n, |s|);
    s[n..e]
  }

  /** Trimming an already-trimmed string changes nothing. */
  lemma TrimIdempotent(s: string)
    ensures Trim(Trim(s)) == Trim(s)
  {
    var t := Trim(s);
    if t != [] {
      assert SkipSpace(t, 0) == 0;
      assert SkipSpaceBack(t, 0, |t|) == |t|;
      assert t[0..|t|] == t;
    }
  }

  /** Strings that agree ignoring case contain word characters at the same
      positions: case-insensitive matching never changes a word boundary. */
  lemma EqualsIgnoreCaseKeepsWordChars(a: string, b: string, i: nat)
    requires EqualsIgnoreCase(a, b) && i < |a|
    ensures i < |b| && IsWordChar(a[i]) == IsWordChar(b[i])
  {
    assert |Lower(a)| == |Lower(b)|;
    assert LowerChar(a[i]) == Lower(a)[i] == Lower(b)[i] == LowerChar(b[i]);
  }
}
