/** The part of JavaScript's `toLowerCase` and `toUpperCase` that the
    stress services and the engine rely on, written out over a finite range:
    Basic Latin and the basic Cyrillic block (U+0400..U+045F). Every other
    character is its own upper- and lower-case form here. */
module CaseMapping {

  /** `c.toLowerCase()` for one character. */
  function LowerChar(c: char): char {
    if 'A' <= c <= 'Z' || 'А' <= c <= 'Я' then (c as int + 0x20) as char
    else if '\U{0400}' <= c <= '\U{040F}' then (c as int + 0x50) as char
    else c
  }

  /** `c.toUpperCase()` for one character. */
  function UpperChar(c: char): char {
    if 'a' <= c <= 'z' || 'а' <= c <= 'я' then (c as int - 0x20) as char
    else if '\U{0450}' <= c <= '\U{045F}' then (c as int - 0x50) as char
    else c
  }

  /** `s.toLowerCase()`: character by character, so the length is kept. */
  function Lower(s: string): string {
    seq(|s|, i requires 0 <= i < |s| => LowerChar(s[i]))
  }

  /** `isUpperCase(c)` of both dynamic stress services: a (non-empty)
      character that equals its own upper-case form. Characters without
      case, such as `-` or a digit, therefore count as upper case. */
  predicate IsUpperCase(c: char) {
    c == UpperChar(c)
  }

  lemma {:induction false} LowerIsIdempotent(s: string)
    ensures |Lower(s)| == |s|
    ensures Lower(Lower(s)) == Lower(s)
  {
    forall i | 0 <= i < |s|
      ensures Lower(Lower(s))[i] == Lower(s)[i]
    {
      assert LowerChar(LowerChar(s[i])) == LowerChar(s[i]);
    }
  }

  /** Upper-case forms of lower-case Cyrillic letters are upper case, the
      lower-case letters themselves are not. */
  lemma CyrillicCase(c: char)
    requires 'а' <= c <= 'я' || c == 'ё'
    ensures !IsUpperCase(c)
    ensures IsUpperCase(UpperChar(c))
    ensures LowerChar(UpperChar(c)) == c
  {
  }
}
