/** Lower-casing of file names, as `String.prototype.toLocaleLowerCase` does
    it on the ASCII letters (the only characters whose case the rule cares
    about: the extensions it compares against are ASCII). */
module Ascii {

  predicate IsUpper(c: char) { 'A' <= c <= 'Z' }

  predicate IsLower(c: char) { 'a' <= c <= 'z' }

  /** A character that lower-casing leaves alone and that no other character
      lower-cases to (a separator, a dot, a digit, ...). */
  predicate CaseFixed(c: char) { !IsUpper(c) && !IsLower(c) }

  function LowerChar(c: char): char
  {
    if IsUpper(c) then (c as int - 'A' as int + 'a' as int) as char else c
  }

  /** `toLocaleLowerCase` on ASCII: every upper-case letter becomes its
      lower-case letter, and every other character is kept. */
  function Lower(s: string): (r: string)
    ensures |r| == |s|
  {
    seq(|s|, i requires 0 <= i < |s| => LowerChar(s[i]))
  }

  /** A character that cannot change case is found at the same places in a
      string and in its lower-cased form, and in every string that agrees
      with it up to case. */
  lemma LowerCharFixed(x: char, c: char)
    requires CaseFixed(c)
    ensures LowerChar(x) == c <==> x == c
    ensures LowerChar(c) == c
  {
    if IsUpper(x) {
      assert IsLower(LowerChar(x));
    }
  }

  /** Lower-casing commutes with taking a slice. */
  lemma LowerSlice(s: string, i: nat, j: nat)
    requires i <= j <= |s|
    ensures Lower(s[i..j]) == Lower(s)[i..j]
  {
  }

  /** What lower-casing does to each character: no upper-case letter is
      left, an upper-case letter becomes its own lower-case letter, and
      every other character is kept. */
  lemma LowerChars(s: string)
    ensures forall i :: 0 <= i < |s| ==> !IsUpper(Lower(s)[i])
    ensures forall i :: 0 <= i < |s| && IsUpper(s[i]) ==> IsLower(Lower(s)[i])
    ensures forall i :: 0 <= i < |s| && IsUpper(s[i]) ==> Lower(s)[i] as int - 'a' as int == s[i] as int - 'A' as int
    ensures forall i :: 0 <= i < |s| && !IsUpper(s[i]) ==> Lower(s)[i] == s[i]
  {
  }

  /** A string with no upper-case letter is its own lower-cased form. */
  lemma LowerOfLowerCase(s: string)
    requires forall k :: 0 <= k < |s| ==> !IsUpper(s[k])
    ensures Lower(s) == s
  {
  }
}
