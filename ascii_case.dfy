/** ASCII letter case as the URL normaliser needs it: the case folding that a
    JavaScript regular expression with the `i` flag (and without the `u` flag)
    applies to both sides of a character comparison, and plain lower-casing,
    which the reference definition of a scheme prefix uses. */
module AsciiCase {

  predicate IsUpper(c: char) { 'A' <= c <= 'Z' }

  predicate IsLower(c: char) { 'a' <= c <= 'z' }

  /** The canonical form a case-insensitive, non-unicode RegExp compares:
      ASCII letters fold to upper case. A character at or above 128 is never
      folded into the ASCII range, so against an all-ASCII pattern the other
      characters can be left as they are. */
  function Canonicalize(c: char): (r: char)
    ensures IsLower(c) || IsUpper(c) <==> IsUpper(r)
    ensures !IsLower(r)
    ensures (c as int < 128) == (r as int < 128)
    ensures IsLower(c) ==> LowerChar(r) == c
    ensures !IsLower(c) ==> r == c
  {
    if IsLower(c) then (c as int - 32) as char else c
  }

  /** ASCII lower-casing of one character. */
  function LowerChar(c: char): (r: char)
    ensures IsLower(c) || IsUpper(c) <==> IsLower(r)
    ensures !IsUpper(r)
    ensures !IsUpper(c) ==> r == c
  {
    if IsUpper(c) then (c as int + 32) as char else c
  }

  /** ASCII lower-casing of a string, character by character. */
  function LowerAscii(s: string): (r: string)
    ensures |r| == |s|
    ensures forall i :: 0 <= i < |s| ==> r[i] == LowerChar(s[i])
  {
    if s == [] then [] else [LowerChar(s[0])] + LowerAscii(s[1..])
  }

  /** The two foldings agree: against a character that is not an upper-case
      letter, `c` is equal to it under RegExp case folding exactly when `c`
      lower-cases to it. */
  lemma SameCanonical(c: char, d: char)
    requires !IsUpper(d)
    ensures (Canonicalize(c) == Canonicalize(d)) == (LowerChar(c) == d)
  {
    if IsLower(d) {
      if Canonicalize(c) == Canonicalize(d) {
        assert LowerChar(Canonicalize(c)) == d;
      }
    }
  }
}
