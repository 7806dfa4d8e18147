/** Character-level helpers: ASCII lower-casing and substring occurrence. */
module Text {

  predicate IsUpper(c: char) {
    'A' <= c <= 'Z'
  }

  /** Python's `str.lower()` on one character, restricted to the ASCII letters. */
  function LowerChar(c: char): (r: char)
    ensures !IsUpper(r)
    ensures !IsUpper(c) ==> r == c
    ensures IsUpper(c) ==> r as int == c as int + 32
  {
    if IsUpper(c) then (c as int + 32) as char else c
  }

  /** Python's `str.lower()`: every ASCII capital becomes its small letter. */
  function Lower(s: string): (r: string)
    ensures |r| == |s|
    ensures forall i :: 0 <= i < |r| ==> !IsUpper(r[i])
    ensures forall i :: 0 <= i < |s| && !IsUpper(s[i]) ==> r[i] == s[i]
    ensures forall i :: 0 <= i < |s| && IsUpper(s[i]) ==> r[i] as int == s[i] as int + 32
  {
    seq(|s|, i requires 0 <= i < |s| => LowerChar(s[i]))
  }

  /** `q` occurs in `s` starting at position `i`. */
  predicate OccursAt(q: string, s: string, i: int) {
    0 <= i && i + |q| <= |s| && s[i..i + |q|] == q
  }

  /** Python's `q in s` on strings: `q` occurs somewhere in `s`. */
  predicate IsSubstring(q: string, s: string) {
    exists i :: 0 <= i <= |s| - |q| && OccursAt(q, s, i)
  }

  /** The empty string occurs in every string, and a string occurs in itself. */
  lemma SubstringBasics(s: string)
    ensures IsSubstring("", s)
    ensures IsSubstring(s, s)
  {
    assert OccursAt("", s, 0);
    assert OccursAt(s, s, 0);
  }

  /** An occurrence survives lower-casing both strings, so a case-sensitive
      hit is also a case-insensitive hit. */
  lemma LowerPreservesSubstring(q: string, s: string)
    requires IsSubstring(q, s)
    ensures IsSubstring(Lower(q), Lower(s))
  {
    var i :| 0 <= i <= |s| - |q| && OccursAt(q, s, i);
    assert Lower(s)[i..i + |q|] == Lower(q);
    assert OccursAt(Lower(q), Lower(s), i);
  }
}
