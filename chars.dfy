/**
 * Character classes of the service-name grammar and the ASCII case mappings
 * used by the generator (toUpperCase of a segment head, toLowerCase of an
 * extension or a directory name).
 */
module Chars {

  predicate IsLowerLetter(c: char) {
    'a' <= c <= 'z'
  }

  predicate IsUpperLetter(c: char) {
    'A' <= c <= 'Z'
  }

  predicate IsDigit(c: char) {
    '0' <= c <= '9'
  }

  /** The class `[a-z0-9]` of the service-name pattern. */
  predicate IsLowerAlnum(c: char) {
    IsLowerLetter(c) || IsDigit(c)
  }

  /** Upper-cases an ASCII lower-case letter; every other character is left alone. */
  function ToUpper(c: char): (r: char)
    ensures IsLowerLetter(c) ==> IsUpperLetter(r) && r as int == c as int - 32
    ensures !IsLowerLetter(c) ==> r == c
  {
    if IsLowerLetter(c) then (c as int - 32) as char else c
  }

  /** Lower-cases an ASCII upper-case letter; every other character is left alone. */
  function ToLower(c: char): (r: char)
    ensures IsUpperLetter(c) ==> IsLowerLetter(r) && r as int == c as int + 32
    ensures !IsUpperLetter(c) ==> r == c
  {
    if IsUpperLetter(c) then (c as int + 32) as char else c
  }

  /** `s.toLowerCase()`, restricted to ASCII letters. */
  function LowerString(s: string): (r: string)
    ensures |r| == |s|
    ensures forall i :: 0 <= i < |s| ==> r[i] == ToLower(s[i])
  {
    seq(|s|, i requires 0 <= i < |s| => ToLower(s[i]))
  }

  /** Lower-casing twice changes nothing more than lower-casing once. */
  lemma LowerStringIdempotent(s: string)
    ensures LowerString(LowerString(s)) == LowerString(s)
  {
    var once := LowerString(s);
    forall i | 0 <= i < |s|
      ensures ToLower(once[i]) == once[i]
    {
      if IsUpperLetter(s[i]) {
        assert IsLowerLetter(once[i]);
      }
    }
  }
}
